/** The listing cache against the device: what a cached listing shows is what the device would be found to hold. */
module Refinement {
  import opened Bytes
  import opened Cache
  import opened Client
  import opened Commands
  import opened Device
  import opened Effects
  import opened Optional
  import opened Paths
  import Shell
  import opened Trees
  import opened World
  import Calendar
  import Devices
  import Safety
  import FindData
  import TempName
  import Wire

  // ----- what a device answers about its tree -----

  /** The mode a stat reports: the kind of node, and its permissions. */
  function ModeOf(node: Node): (mode: int)
    ensures IsDirMode(mode) <==> node.Dir?
    ensures !IsSymlinkMode(mode)
  {
    (if node.Dir? then 0x4000 else 0x8000) + node.mode % 0x1000
  }

  function StatOf(t: Tree, p: string): StatReply {
    if p !in t then NotThere
    else There(ModeOf(t[p]), if t[p].File? then |t[p].data| % 0x1_0000_0000 else 0, t[p].mtime % 0x1_0000_0000)
  }

  predicate IsChild(p: string, q: string) {
    q != "/" && ParentWfxDir(q) == p
  }

  /** The entry describes the node; sizes and dates are 32 bits wide, and a directory's are not compared. */
  predicate Describes(e: ListedEntry, node: Node) {
    && e.entry.mode == ModeOf(node) && !e.targetIsDir
    && (node.File? ==> e.entry.size == |node.data| % 0x1_0000_0000 && e.entry.mtime == node.mtime % 0x1_0000_0000)
  }

  function PathOf(p: string, e: ListedEntry): string {
    JoinWfxPath(p, Text(e.entry.name))
  }

  predicate IsEntryOf(e: ListedEntry, t: Tree, p: string) {
    IsChild(p, PathOf(p, e)) && PathOf(p, e) in t && Describes(e, t[PathOf(p, e)])
  }

  predicate Lists(listing: Listing, i: int, p: string, q: string) {
    0 <= i < |listing| && !IsDots(listing[i].entry.name) && PathOf(p, listing[i]) == q
  }

  /** The listing has each child of the directory once, as it is, and nothing else but "." and "..". */
  ghost predicate Shows(listing: Listing, t: Tree, p: string) {
    && HasDir(t, p)
    && (forall i :: 0 <= i < |listing| && !IsDots(listing[i].entry.name) ==> IsEntryOf(listing[i], t, p))
    && (forall q :: q in t && IsChild(p, q) ==> exists i :: Lists(listing, i, p, q))
    && (forall i, j :: 0 <= i < j < |listing| ==> listing[i].entry.name != listing[j].entry.name)
  }

  lemma TextIsInjective(a: seq<byte>, b: seq<byte>)
    requires Text(a) == Text(b)
    ensures a == b
  {
    assert |Text(a)| == |a| && |Text(b)| == |b|;
    assert forall i :: 0 <= i < |a| ==> Text(a)[i] as int == a[i] && Text(b)[i] as int == b[i];
  }

  lemma JoinIsInjective(p: string, a: string, b: string)
    requires JoinWfxPath(p, a) == JoinWfxPath(p, b)
    ensures a == b
  {
    var n := |JoinWfxPath(p, [])|;
    assert JoinWfxPath(p, a)[n..] == a && JoinWfxPath(p, b)[n..] == b;
  }

  lemma SameChild(t: Tree, t': Tree, p: string, e: ListedEntry)
    requires IsEntryOf(e, t, p) && AlikeAt(t, t', PathOf(p, e))
    ensures IsEntryOf(e, t', p)
  {
  }

  /** A listing stays right when neither its directory nor one of its children changes. */
  lemma ShowsStays(listing: Listing, t: Tree, t': Tree, p: string)
    requires Shows(listing, t, p) && AlikeAt(t, t', p)
    requires forall q :: IsChild(p, q) ==> AlikeAt(t, t', q)
    ensures Shows(listing, t', p)
  {
    hide Alike, ParentWfxDir, JoinWfxPath, Text, Describes, IsDots;
    forall i | 0 <= i < |listing| && !IsDots(listing[i].entry.name)
      ensures IsEntryOf(listing[i], t', p)
    {
      SameChild(t, t', p, listing[i]);
    }
    AlikeDirs(t, t', p);
  }

  lemma AlikeDirs(t: Tree, t': Tree, p: string)
    requires AlikeAt(t, t', p) && HasDir(t, p)
    ensures HasDir(t', p)
  {
  }

  // ----- the keys of the cache -----

  /** Each device has one display name, as the root listing invents it. */
  ghost predicate NamesFit(names: map<string, string>) {
    forall s :: s in names ==> names[s] != "" && '/' !in names[s] && SerialFromDisplayName(names[s]) == s
  }

  /** The one canonical name of a path on a device. */
  function Key(names: map<string, string>, serial: string, p: string): string
    requires serial in names
  {
    "/" + names[serial] + if p == "/" then "" else p
  }

  predicate IsKey(names: map<string, string>, wfxPath: string) {
    var rp := ParseWfxPath(wfxPath);
    rp.serial in names && Canonical(rp.path) && Shell.NulFree(rp.path) && wfxPath == Key(names, rp.serial, rp.path)
  }

  /** The names under which the root lists the devices of a device list. */
  function NamesOf(devices: seq<Devices.DeviceInfo>): map<string, string> {
    if devices == [] then map[]
    else
      var d := devices[|devices| - 1];
      NamesOf(devices[..|devices| - 1])[d.serial := DisplayName(d.model, d.serial)]
  }

  lemma NameFits(model: string, serial: string)
    requires IsDevice(model, serial) && '/' !in serial && '/' !in model
    ensures var name := DisplayName(model, serial); name != "" && '/' !in name && SerialFromDisplayName(name) == serial
  {
    SerialOfDisplayName(model, serial);
  }

  /** The root shows exactly the devices that are ready, and warns of exactly the others. */
  lemma {:induction false} RootShowsDevices(devices: seq<Devices.DeviceInfo>)
    ensures forall row :: row in ReadyRows(devices) <==>
      exists i :: 0 <= i < |devices| && IsReady(devices[i]) && row == DeviceRow(devices[i])
    ensures forall d :: d in Unready(devices) <==> d in devices && !IsReady(d)
    ensures |ReadyRows(devices)| + |Unready(devices)| == |devices|
  {
    if devices != [] {
      var n := |devices| - 1;
      RootShowsDevices(devices[..n]);
      assert forall i :: 0 <= i < n ==> devices[..n][i] == devices[i];
      assert devices == devices[..n] + [devices[n]];
    }
  }

  /** The name a device is shown under is the one its cache keys begin with, if no other has its serial number. */
  lemma {:induction false} ShownNameIsKey(devices: seq<Devices.DeviceInfo>, i: nat)
    requires i < |devices| && forall j :: i < j < |devices| ==> devices[j].serial != devices[i].serial
    ensures var d := devices[i]; var names := NamesOf(devices);
      d.serial in names && Key(names, d.serial, "/") == "/" + DisplayName(d.model, d.serial)
      && (IsReady(d) ==> DeviceRow(d).name == Ascii(names[d.serial]))
  {
    if i < |devices| - 1 {
      ShownNameIsKey(devices[..|devices| - 1], i);
    }
  }

  /** Names taken from any device list are fit, if no serial number and no model has a slash in it. */
  lemma {:induction false} ListedNamesFit(devices: seq<Devices.DeviceInfo>)
    requires forall d :: d in devices ==> IsDevice(d.model, d.serial) && '/' !in d.serial && '/' !in d.model
    ensures NamesFit(NamesOf(devices))
  {
    hide DisplayName, SerialFromDisplayName, IsDevice;
    if devices != [] {
      var d := devices[|devices| - 1];
      ListedNamesFit(devices[..|devices| - 1]);
      NameFits(d.model, d.serial);
    }
  }

  lemma KeyResolves(names: map<string, string>, k: string)
    requires IsKey(names, k)
    ensures Canonical(ParseWfxPath(k).path) && Shell.NulFree(ParseWfxPath(k).path)
    ensures Resolve(ParseWfxPath(k).path) == ParseWfxPath(k).path
  {
    ResolveCanonical(ParseWfxPath(k).path);
  }

  lemma KeyIsBelowRoot(names: map<string, string>, k: string)
    requires NamesFit(names) && IsKey(names, k)
    ensures !ParseWfxPath(k).isRoot
  {
    assert |k| > 1;
  }

  /** Any path has its key. */
  lemma KeyIsKey(names: map<string, string>, serial: string, p: string)
    requires NamesFit(names) && serial in names && Canonical(p) && Shell.NulFree(p)
    ensures IsKey(names, Key(names, serial, p)) && ParseWfxPath(Key(names, serial, p)) == RemotePath(false, serial, p)
  {
    ParseOfName(names[serial], if p == "/" then "" else p);
  }

  lemma KeyCovers(names: map<string, string>, serial: string, p: string, q: string)
    requires serial in names && Beneath(p, q) && Canonical(p) && Canonical(q)
    ensures Covers(Key(names, serial, p), Key(names, serial, q))
  {
    CanonicalShape(q);
    var name := "/" + names[serial];
    if p == "/" {
      if q != "/" {
        assert name + "/" <= name + q;
      }
    } else if p != q {
      assert (name + p) + "/" == name + (p + "/");
      assert name + (p + "/") <= name + q;
    }
  }

  lemma LastSlashOfSum(name: string, p: string)
    requires LastIndexOf(p, '/') >= 0
    ensures LastIndexOf(name + p, '/') == |name| + LastIndexOf(p, '/')
  {
    var i := LastIndexOf(p, '/');
    var w := name + p;
    assert w[|name| + i] == '/';
    assert forall j :: |name| + i < j < |w| ==> w[j] == p[j - |name|];
  }

  lemma ParentOfKey(names: map<string, string>, serial: string, p: string)
    requires NamesFit(names) && serial in names && Canonical(p) && p != "/"
    ensures ParentWfxDir(Key(names, serial, p)) == Key(names, serial, ParentWfxDir(p))
  {
    hide LastIndexOf;
    assert LastIndexOf(p, '/') >= 0;
    ParentOfSum("/" + names[serial], p);
  }

  lemma ParentOfSum(name: string, p: string)
    requires name != "" && LastIndexOf(p, '/') >= 0
    ensures ParentWfxDir(name + p) == name + p[..LastIndexOf(p, '/')]
  {
    hide LastIndexOf;
    LastSlashOfSum(name, p);
    assert (name + p)[..|name| + LastIndexOf(p, '/')] == name + p[..LastIndexOf(p, '/')];
  }

  // ----- agreement -----

  ghost predicate AgreesAt(names: map<string, string>, phones: Phones, k: string, listing: Listing) {
    && IsKey(names, k) && ParseWfxPath(k).serial in phones
    && Shows(listing, phones[ParseWfxPath(k).serial], ParseWfxPath(k).path)
  }

  /** Every cached listing, live or not, shows what the device holds. */
  ghost predicate Agrees(names: map<string, string>, phones: Phones, cache: CacheMap) {
    forall k :: k in cache ==> AgreesAt(names, phones, k, cache[k].listing)
  }

  /** Whatever lies at or under a path lies in a directory that does, or is the path itself and lies in its parent. */
  lemma ChildIsOutside(p1: string, p: string, q: string)
    requires Canonical(p1) && IsChild(p, q) && Beneath(p1, q)
    ensures Beneath(p1, p) || (q == p1 && p == ParentWfxDir(p1))
  {
    if p1 != "/" && q != p1 {
      assert p1 + "/" <= q;
      var pos := LastIndexOf(q, '/');
      assert q[|p1|] == '/';
      assert pos >= |p1|;
      assert p == q[..pos];
      if pos > |p1| {
        assert p1 + "/" <= q[..pos];
      } else {
        assert p == p1;
      }
    }
  }

  /** The cached listing of a directory is out of reach of a change at or under `p1`. */
  predicate Spared(p1: string, p: string) {
    !Beneath(p1, p) && !Beneath(ParentWfxDir(p1), p)
  }

  lemma SparedStays(listing: Listing, t: Tree, t': Tree, p: string, p1: string, p2: string)
    requires Shows(listing, t, p) && Confined(t, t', p1, p2) && Canonical(p1) && Canonical(p2)
    requires Spared(p1, p) && Spared(p2, p)
    ensures Shows(listing, t', p)
  {
    hide Shows, Canonical, ParentWfxDir, Alike;
    forall q | IsChild(p, q)
      ensures AlikeAt(t, t', q)
    {
      if Beneath(p1, q) {
        ChildIsOutside(p1, p, q);
      }
      if Beneath(p2, q) {
        ChildIsOutside(p2, p, q);
      }
    }
    ShowsStays(listing, t, t', p);
  }

  /** What the plugin drops when a path changes leaves only listings that are out of reach of the change. */
  lemma DroppedIsEnough(names: map<string, string>, cache: CacheMap, serial: string, p1: string, k: string)
    requires NamesFit(names) && serial in names && Canonical(p1)
    requires k in Dropped(cache, Key(names, serial, p1)) && IsKey(names, k) && ParseWfxPath(k).serial == serial
    ensures Spared(p1, ParseWfxPath(k).path)
  {
    hide ParentWfxDir, Canonical, ParseWfxPath, Key, Shell.NulFree;
    var p := ParseWfxPath(k).path;
    var wfx := Key(names, serial, p1);
    if Beneath(p1, p) {
      KeyCovers(names, serial, p1, p);
    }
    if p1 == "/" {
      RootIsItsParent();
    } else if Beneath(ParentWfxDir(p1), p) {
      ParentIsCanonical(p1);
      ParentOfKey(names, serial, p1);
      KeyCovers(names, serial, ParentWfxDir(p1), p);
    }
  }

  lemma RootIsItsParent()
    ensures ParentWfxDir("/") == "/"
  {
  }

  /** Only one device's tree changed, and only at or under two paths. */
  ghost predicate ConfinedTo(phones: Phones, phones': Phones, serial: string, p1: string, p2: string) {
    && phones'.Keys == phones.Keys
    && (forall s :: s in phones && s != serial ==> phones'[s] == phones[s])
    && (serial in phones ==> Confined(phones[serial], phones'[serial], p1, p2))
  }

  /** Agreement survives a confined change if the listings in its reach are dropped. */
  lemma AgreementSurvives(names: map<string, string>, phones: Phones, phones': Phones, cache: CacheMap, cache': CacheMap,
                          serial: string, p1: string, p2: string)
    requires Agrees(names, phones, cache) && ConfinedTo(phones, phones', serial, p1, p2) && Canonical(p1) && Canonical(p2)
    requires forall k :: k in cache' ==>
      && k in cache && cache'[k] == cache[k]
      && (ParseWfxPath(k).serial == serial ==> Spared(p1, ParseWfxPath(k).path) && Spared(p2, ParseWfxPath(k).path))
    ensures Agrees(names, phones', cache')
  {
    hide Shows, Canonical, ParseWfxPath, IsKey, Spared, Confined;
    forall k | k in cache'
      ensures AgreesAt(names, phones', k, cache'[k].listing)
    {
      assert AgreesAt(names, phones, k, cache[k].listing);
      var rp := ParseWfxPath(k);
      if rp.serial == serial {
        SparedStays(cache[k].listing, phones[serial], phones'[serial], rp.path, p1, p2);
      }
    }
  }

  /** ... and a change that no listing can tell needs nothing dropped. */
  lemma AgreementIgnoresDates(names: map<string, string>, phones: Phones, phones': Phones, cache: CacheMap, cache': CacheMap)
    requires Agrees(names, phones, cache) && phones'.Keys == phones.Keys
    requires forall s, q :: s in phones ==> AlikeAt(phones[s], phones'[s], q)
    requires forall k :: k in cache' ==> k in cache && cache'[k] == cache[k]
    ensures Agrees(names, phones', cache')
  {
    hide Shows, ParseWfxPath, IsKey, AlikeAt;
    forall k | k in cache'
      ensures AgreesAt(names, phones', k, cache'[k].listing)
    {
      assert AgreesAt(names, phones, k, cache[k].listing);
      var rp := ParseWfxPath(k);
      ShowsStays(cache[k].listing, phones[rp.serial], phones'[rp.serial], rp.path);
    }
  }

  // ----- commands -----

  /** A device that does what it is told, and nothing when it complains or cannot be reached. */
  ghost predicate Honest(r: ShellReply) {
    Obedient(r) && Harmless(r)
  }

  lemma SuccessIsConfined(phones: Phones, serial: string, commandLine: string, c: Command, r: ShellReply)
    requires Meaning(commandLine) == Some(c) && Obedient(r)
    requires Canonical(First(c)) && Canonical(Second(c)) && (serial in phones ==> ParentIsThere(c, phones[serial]))
    ensures ConfinedTo(phones, AfterShell(phones, serial, commandLine, r), serial, First(c), Second(c))
  {
    hide Meaning, TreeAfter, Canonical, ParentIsThere, First, Second, Confined;
    if serial in phones {
      assert Obeys(commandLine, phones[serial], r);
      EffectIsConfined(commandLine, c, phones[serial], r.manner);
    }
  }

  lemma FailureIsAlike(phones: Phones, serial: string, commandLine: string, c: Command, r: ShellReply)
    requires Meaning(commandLine) == Some(c) && Honest(r) && !IsSuccess(r)
    ensures var phones' := AfterShell(phones, serial, commandLine, r);
      phones'.Keys == phones.Keys && forall s, q :: s in phones ==> AlikeAt(phones[s], phones'[s], q)
  {
    hide Meaning, Retimed, IsSuccess, Run;
    if serial in phones {
      assert Obeys(commandLine, phones[serial], r);
      RetimedIsAlike(phones[serial], r.manner.dirTimes);
    }
  }

  /** A command whose success drops what is in its reach, and whose failure drops nothing, keeps the cache right. */
  lemma CommandKeeps(names: map<string, string>, phones: Phones, cache: CacheMap, cache': CacheMap, serial: string,
                     commandLine: string, c: Command, r: ShellReply)
    requires Agrees(names, phones, cache) && Meaning(commandLine) == Some(c) && Honest(r)
    requires Canonical(First(c)) && Canonical(Second(c))
    requires serial in phones && IsSuccess(r) ==> ParentIsThere(c, phones[serial])
    requires forall k :: k in cache' ==> k in cache && cache'[k] == cache[k]
    requires serial in phones && IsSuccess(r) ==>
      forall k :: k in cache' && ParseWfxPath(k).serial == serial ==>
        Spared(First(c), ParseWfxPath(k).path) && Spared(Second(c), ParseWfxPath(k).path)
    ensures Agrees(names, AfterShell(phones, serial, commandLine, r), cache')
  {
    hide Agrees, Meaning, Canonical, ParentIsThere, First, Second, Spared, ParseWfxPath, IsSuccess, Obedient, Harmless;
    var phones' := AfterShell(phones, serial, commandLine, r);
    if serial !in phones {
      assert phones' == phones;
      AgreementIgnoresDates(names, phones, phones, cache, cache') by {
        assert forall s, q :: s in phones ==> AlikeAt(phones[s], phones[s], q);
      }
    } else if IsSuccess(r) {
      SuccessIsConfined(phones, serial, commandLine, c, r);
      AgreementSurvives(names, phones, phones', cache, cache', serial, First(c), Second(c));
    } else {
      FailureIsAlike(phones, serial, commandLine, c, r);
      AgreementIgnoresDates(names, phones, phones', cache, cache');
    }
  }

  /** The same for a command about a single path, as the plugin runs it. */
  lemma MutationKeeps(names: map<string, string>, now: Snapshot, cache: CacheMap, commandLine: string, c: Command,
                      wfxPath: string, r: ShellReply)
    requires NamesFit(names) && Agrees(names, now.phones, cache) && Meaning(commandLine) == Some(c) && Honest(r)
    requires IsKey(names, wfxPath) && First(c) == Second(c) == ParseWfxPath(wfxPath).path
    requires var serial := ParseWfxPath(wfxPath).serial;
      serial in now.phones && IsSuccess(r) ==> ParentIsThere(c, now.phones[serial])
    ensures var e := MutationEffect(now, cache, ParseWfxPath(wfxPath).serial, commandLine, wfxPath, r);
      Agrees(names, Final(now, e.trail).phones, e.cache)
  {
    hide Meaning, ParentIsThere, First, Second, Spared, ParseWfxPath, Dropped, AfterShell, Obedient, Harmless, IsSilent, Shows,
         Key, Canonical;
    var rp := ParseWfxPath(wfxPath);
    var e := MutationEffect(now, cache, rp.serial, commandLine, wfxPath, r);
    DroppedIsLess(cache, wfxPath);
    if e.result {
      forall k | k in e.cache && ParseWfxPath(k).serial == rp.serial
        ensures Spared(rp.path, ParseWfxPath(k).path)
      {
        assert AgreesAt(names, now.phones, k, cache[k].listing);
        DroppedIsEnough(names, cache, rp.serial, rp.path, k);
      }
    }
    CommandKeeps(names, now.phones, cache, e.cache, rp.serial, commandLine, c, r);
  }

  lemma DroppedIsLess(cache: CacheMap, wfxPath: string)
    ensures forall k :: k in Dropped(cache, wfxPath) ==> k in cache && Dropped(cache, wfxPath)[k] == cache[k]
  {
  }

  lemma DeleteKeeps(names: map<string, string>, now: Snapshot, cache: CacheMap, wfxRemote: string, r: ShellReply)
    requires NamesFit(names) && Agrees(names, now.phones, cache) && IsKey(names, wfxRemote) && Honest(r)
    ensures var e := DeleteEffect(now, cache, wfxRemote, r); Agrees(names, Final(now, e.trail).phones, e.cache)
  {
    hide Agrees, Meaning, ParseWfxPath, DeleteCommand, MutationEffect, Honest, Key, Canonical, Resolve;
    var path := ParseWfxPath(wfxRemote).path;
    KeyResolves(names, wfxRemote);
    MeaningOfDelete(path);
    MutationKeeps(names, now, cache, DeleteCommand(path), Rm(path), wfxRemote, r);
  }

  lemma RemoveDirKeeps(names: map<string, string>, now: Snapshot, cache: CacheMap, wfxRemote: string, r: ShellReply)
    requires NamesFit(names) && Agrees(names, now.phones, cache) && IsKey(names, wfxRemote) && Honest(r)
    ensures var e := RemoveDirEffect(now, cache, wfxRemote, r); Agrees(names, Final(now, e.trail).phones, e.cache)
  {
    hide Agrees, Meaning, ParseWfxPath, RemoveDirCommand, MutationEffect, Honest, Key, Canonical, Resolve;
    var path := ParseWfxPath(wfxRemote).path;
    KeyResolves(names, wfxRemote);
    MeaningOfRemoveDir(path);
    MutationKeeps(names, now, cache, RemoveDirCommand(path), RmTree(path), wfxRemote, r);
  }

  /** The directory that is to contain the path is there. */
  predicate ParentExists(phones: Phones, wfxPath: string) {
    var rp := ParseWfxPath(wfxPath);
    rp.serial in phones ==> HasDir(phones[rp.serial], ParentWfxDir(rp.path))
  }

  lemma MakeDirKeeps(names: map<string, string>, now: Snapshot, cache: CacheMap, wfxRemote: string, r: ShellReply)
    requires NamesFit(names) && Agrees(names, now.phones, cache) && IsKey(names, wfxRemote) && Honest(r)
    requires ParentExists(now.phones, wfxRemote)
    ensures var e := MakeDirEffect(now, cache, wfxRemote, r); Agrees(names, Final(now, e.trail).phones, e.cache)
  {
    hide Agrees, Meaning, ParseWfxPath, MakeDirCommand, MutationEffect, Honest, Key, Canonical, Resolve, HasDir;
    var path := ParseWfxPath(wfxRemote).path;
    KeyResolves(names, wfxRemote);
    MeaningOfMakeDir(path);
    MutationKeeps(names, now, cache, MakeDirCommand(path), Mkdir(path), wfxRemote, r);
  }

  lemma TouchByDateKeeps(names: map<string, string>, now: Snapshot, cache: CacheMap, wfxRemote: string, mtime: int, r: ShellReply)
    requires NamesFit(names) && Agrees(names, now.phones, cache) && IsKey(names, wfxRemote) && Honest(r)
    ensures var e := TouchByDateEffect(now, cache, wfxRemote, mtime, r); Agrees(names, Final(now, e.trail).phones, e.cache)
  {
    hide Agrees, Meaning, ParseWfxPath, TouchDateCommand, MutationEffect, Honest, Key, Canonical, Resolve, Calendar.FormatTouchTArg;
    var path := ParseWfxPath(wfxRemote).path;
    KeyResolves(names, wfxRemote);
    if Calendar.FormatTouchTArg(mtime).Some? {
      MeaningOfTouchDate(mtime, path);
      MutationKeeps(names, now, cache, TouchDateCommand(Calendar.FormatTouchTArg(mtime).value, path), Touch(path, mtime),
                    wfxRemote, r);
    }
  }

  lemma SetTimeKeeps(names: map<string, string>, now: Snapshot, cache: CacheMap, wfxRemote: string, mtime: int,
                     strategy: TouchStrategy, env: TimeEnv)
    requires NamesFit(names) && Agrees(names, now.phones, cache) && IsKey(names, wfxRemote)
    requires Honest(env.epoch) && Honest(env.date)
    ensures var e := SetTimeEffect(now, cache, wfxRemote, mtime, strategy, env); Agrees(names, Final(now, e.trail).phones, e.cache)
  {
    hide Agrees, Meaning, ParseWfxPath, TouchEpochCommand, TouchByDateEffect, Honest, Key, Canonical, Resolve, AfterShell, IsSilent,
         Dropped;
    var rp := ParseWfxPath(wfxRemote);
    var line := TouchEpochCommand(mtime, rp.path);
    KeyResolves(names, wfxRemote);
    MeaningOfTouchEpoch(mtime, rp.path);
    MutationKeeps(names, now, cache, line, Touch(rp.path, mtime), wfxRemote, env.epoch);
    TouchByDateKeeps(names, now, cache, wfxRemote, mtime, env.date);
    var first := MutationEffect(now, cache, rp.serial, line, wfxRemote, env.epoch);
    if !first.result {
      TouchByDateKeeps(names, first.trail[0], cache, wfxRemote, mtime, env.date);
      FinalOfTwo(now, first.trail, TouchByDateEffect(first.trail[0], cache, wfxRemote, mtime, env.date).trail);
    }
  }

  lemma CopyKeeps(names: map<string, string>, now: Snapshot, cache: CacheMap, wfxFrom: string, wfxTo: string, env: CopyEnv)
    requires NamesFit(names) && Agrees(names, now.phones, cache) && IsKey(names, wfxFrom) && IsKey(names, wfxTo)
    requires ParseWfxPath(wfxFrom).serial == ParseWfxPath(wfxTo).serial
    requires Honest(env.copy) && Honest(env.time.epoch) && Honest(env.time.date)
    ensures var e := DeviceCopyEffect(now, cache, wfxFrom, wfxTo, env); Agrees(names, Final(now, e.trail).phones, e.cache)
  {
    hide Agrees, Meaning, ParseWfxPath, CopyCommand, SetTimeEffect, Honest, Key, Canonical, Resolve, AfterShell, IsSilent, Dropped;
    var from, to := ParseWfxPath(wfxFrom), ParseWfxPath(wfxTo);
    var line := CopyCommand(from.path, to.path);
    KeyResolves(names, wfxFrom);
    KeyResolves(names, wfxTo);
    MeaningOfCopy(from.path, to.path);
    MutationKeeps(names, now, cache, line, Cp(from.path, to.path), wfxTo, env.copy);
    var copied := MutationEffect(now, cache, from.serial, line, wfxTo, env.copy);
    if env.stat.There? && copied.result {
      SetTimeKeeps(names, copied.trail[0], copied.cache, wfxTo, env.stat.mtime, EpochThenFallback, env.time);
      FinalOfTwo(now, copied.trail,
                 SetTimeEffect(copied.trail[0], copied.cache, wfxTo, env.stat.mtime, EpochThenFallback, env.time).trail);
    }
  }

  lemma MoveKeeps(names: map<string, string>, now: Snapshot, cache: CacheMap, wfxFrom: string, wfxTo: string, r: ShellReply)
    requires NamesFit(names) && Agrees(names, now.phones, cache) && IsKey(names, wfxFrom) && IsKey(names, wfxTo)
    requires ParseWfxPath(wfxFrom).serial == ParseWfxPath(wfxTo).serial && Honest(r)
    ensures var e := DeviceMoveEffect(now, cache, wfxFrom, wfxTo, r); Agrees(names, Final(now, e.trail).phones, e.cache)
  {
    hide Meaning, ParseWfxPath, MoveCommand, Honest, Key, Canonical, Resolve, AfterShell, IsSilent, Dropped, Spared, Shows;
    var from, to := ParseWfxPath(wfxFrom), ParseWfxPath(wfxTo);
    KeyResolves(names, wfxFrom);
    KeyResolves(names, wfxTo);
    MeaningOfMove(from.path, to.path);
    var e := DeviceMoveEffect(now, cache, wfxFrom, wfxTo, r);
    DroppedIsLess(cache, wfxFrom);
    DroppedIsLess(Dropped(cache, wfxFrom), wfxTo);
    if e.result {
      forall k | k in e.cache && ParseWfxPath(k).serial == from.serial
        ensures Spared(from.path, ParseWfxPath(k).path) && Spared(to.path, ParseWfxPath(k).path)
      {
        assert AgreesAt(names, now.phones, k, cache[k].listing);
        DroppedIsEnough(names, cache, from.serial, from.path, k);
        DroppedIsEnough(names, Dropped(cache, wfxFrom), from.serial, to.path, k);
      }
    }
    CommandKeeps(names, now.phones, cache, e.cache, from.serial, MoveCommand(from.path, to.path), Mv(from.path, to.path), r);
  }

  lemma RenameOrMoveKeeps(names: map<string, string>, now: Snapshot, cache: CacheMap, wfxFrom: string, wfxTo: string,
                          move: bool, overwrite: bool, env: MoveEnv)
    requires NamesFit(names) && Agrees(names, now.phones, cache) && IsKey(names, wfxFrom) && IsKey(names, wfxTo)
    requires Honest(env.move) && Honest(env.copy.copy) && Honest(env.copy.time.epoch) && Honest(env.copy.time.date)
    ensures var e := RenameOrMoveEffect(now, cache, wfxFrom, wfxTo, move, overwrite, env);
      Agrees(names, Final(now, e.trail).phones, e.cache)
  {
    hide Agrees, ParseWfxPath, Honest, IsKey, DeviceMoveEffect, DeviceCopyEffect;
    if ParseWfxPath(wfxFrom).serial == ParseWfxPath(wfxTo).serial {
      if move {
        MoveKeeps(names, now, cache, wfxFrom, wfxTo, env.move);
      } else {
        CopyKeeps(names, now, cache, wfxFrom, wfxTo, env.copy);
      }
    }
  }

  // ----- transfers -----

  /** An upload that fails, other than by being cancelled, leaves nothing behind. */
  predicate HarmlessUpload(u: Upload) {
    u.err.Error? && u.err.message != CANCELLED ==> u.partial.None?
  }

  lemma UploadIsConfined(phones: Phones, serial: string, path: string, content: seq<byte>, mode: int, mtime: int, u: Upload)
    requires serial in phones ==> HasDir(phones[serial], ParentWfxDir(Resolve(path)))
    ensures ConfinedTo(phones, PhonesAfterUpload(phones, serial, path, content, mode, mtime, u), serial, Resolve(path), Resolve(path))
  {
    hide ParentWfxDir, Wire.MtimeArg, Resolve;
  }

  lemma FailedUploadIsAlike(phones: Phones, serial: string, path: string, content: seq<byte>, mode: int, mtime: int, u: Upload)
    requires u.err.Error? && u.partial.None?
    ensures var phones' := PhonesAfterUpload(phones, serial, path, content, mode, mtime, u);
      phones'.Keys == phones.Keys && forall s, q :: s in phones ==> AlikeAt(phones[s], phones'[s], q)
  {
    hide ParentWfxDir, Wire.MtimeArg, MakeDirs, Resolve;
  }

  lemma PutKeeps(names: map<string, string>, now: Snapshot, cache: CacheMap, localPath: LocalPath, wfxRemote: string,
                 flags: nat, env: PutEnv)
    requires NamesFit(names) && Agrees(names, now.phones, cache) && IsKey(names, wfxRemote)
    requires ParentExists(now.phones, wfxRemote) && HarmlessUpload(env.upload)
    ensures var e := PutEffect(now, cache, localPath, wfxRemote, flags, env); Agrees(names, Final(now, e.trail).phones, e.cache)
  {
    hide ParseWfxPath, Key, Canonical, Resolve, Dropped, Spared, Shows, HasDir, PhonesAfterUpload, CANCELLED, ConfinedTo, AlikeAt;
    var e := PutEffect(now, cache, localPath, wfxRemote, flags, env);
    KeyResolves(names, wfxRemote);
    if PutRefusal(now, localPath, flags, env) == FS_FILE_OK {
      var rp, file := ParseWfxPath(wfxRemote), now.disk[localPath];
      var phones' := PhonesAfterUpload(now.phones, rp.serial, rp.path, file.data, env.mode, file.mtime, env.upload);
      if rp.serial !in now.phones {
        UnknownPhone(now.phones, rp.serial, rp.path, file.data, env.mode, file.mtime, env.upload);
        DroppedIsLess(cache, wfxRemote);
      } else if env.upload.err.Error? && env.upload.partial.None? {
        FailedUploadIsAlike(now.phones, rp.serial, rp.path, file.data, env.mode, file.mtime, env.upload);
        DroppedIsLess(cache, wfxRemote);
        AgreementIgnoresDates(names, now.phones, phones', cache, e.cache);
      } else {
        UploadIsConfined(now.phones, rp.serial, rp.path, file.data, env.mode, file.mtime, env.upload);
        DropKeeps(names, now.phones, phones', cache, wfxRemote);
      }
    }
  }

  lemma UnknownPhone(phones: Phones, serial: string, path: string, content: seq<byte>, mode: int, mtime: int, u: Upload)
    requires serial !in phones
    ensures PhonesAfterUpload(phones, serial, path, content, mode, mtime, u) == phones
  {
  }

  lemma DropKeeps(names: map<string, string>, phones: Phones, phones': Phones, cache: CacheMap, wfxPath: string)
    requires NamesFit(names) && Agrees(names, phones, cache) && IsKey(names, wfxPath)
    requires var rp := ParseWfxPath(wfxPath); ConfinedTo(phones, phones', rp.serial, rp.path, rp.path)
    ensures Agrees(names, phones', Dropped(cache, wfxPath))
  {
    hide ParseWfxPath, Key, Canonical, Dropped, Spared, Shows, ConfinedTo;
    var rp := ParseWfxPath(wfxPath);
    DroppedIsLess(cache, wfxPath);
    forall k | k in Dropped(cache, wfxPath) && ParseWfxPath(k).serial == rp.serial
      ensures Spared(rp.path, ParseWfxPath(k).path)
    {
      assert AgreesAt(names, phones, k, cache[k].listing);
      DroppedIsEnough(names, cache, rp.serial, rp.path, k);
    }
    AgreementSurvives(names, phones, phones', cache, Dropped(cache, wfxPath), rp.serial, rp.path, rp.path);
  }

  lemma GetKeeps(names: map<string, string>, now: Snapshot, cache: CacheMap, wfxRemote: string, localPath: LocalPath,
                 flags: nat, pid: TempName.pid_t, env: GetEnv)
    requires NamesFit(names) && Agrees(names, now.phones, cache) && IsKey(names, wfxRemote) && Honest(env.remove)
    ensures var e := GetEffect(now, cache, wfxRemote, localPath, flags, pid, env);
      Agrees(names, Final(now, e.trail).phones, e.cache)
  {
    hide Agrees, IsKey, Honest, Fetching, DeleteEffect, TempName.TempDownloadPath;
    if GetRefusal(now, localPath, flags, env) == FS_FILE_OK {
      var w, via, mtime := WritePath(now, localPath, pid), localPath in now.disk, RemoteInfo(env).mtime;
      Safety.FetchEnds(now, localPath, w, via, mtime, env);
      var trail := Fetching(now, localPath, w, via, mtime, env).0;
      DeleteKeeps(names, Final(now, trail), cache, wfxRemote, env.remove);
      FinalOfTwo(now, trail, DeleteEffect(Final(now, trail), cache, wfxRemote, env.remove).trail);
    }
  }

  // ----- listings -----

  /** What a device that has the tree answers to a listing of the path: the path's own stat, and - if it answers - a
      listing that shows the directory. */
  ghost predicate HonestListing(phones: Phones, wfxDir: string, env: ListEnv) {
    var rp := ParseWfxPath(wfxDir);
    if rp.serial !in phones then env.stat.StatFailed?
    else
      && env.stat == StatOf(phones[rp.serial], rp.path)
      && (env.listed.Some? && HasDir(phones[rp.serial], rp.path) ==>
            Shows(ResolvedAll(env.listed.value, []), phones[rp.serial], rp.path))
  }

  /** There are no links on the device, so nothing is learnt by looking through them. */
  lemma NothingToResolve(entries: seq<Wire.DirEntry>, replies: seq<StatReply>, t: Tree, p: string)
    requires Shows(ResolvedAll(entries, []), t, p)
    ensures Shows(ResolvedAll(entries, replies), t, p) && Shown(ResolvedAll(entries, replies)) == Shown(ResolvedAll(entries, []))
  {
    var plain := ResolvedAll(entries, []);
    forall i | 0 <= i < |entries|
      ensures ResolvedAll(entries, replies)[i] == plain[i]
    {
      if !IsDots(entries[i].name) {
        assert IsEntryOf(plain[i], t, p);
      }
    }
    assert ResolvedAll(entries, replies) == plain;
  }

  lemma ListKeeps(names: map<string, string>, phones: Phones, cache: CacheMap, ttl: int, wfxDir: string, env: ListEnv)
    requires NamesFit(names) && Agrees(names, phones, cache)
    requires ParseWfxPath(wfxDir).isRoot || (IsKey(names, wfxDir) && HonestListing(phones, wfxDir, env))
    ensures Agrees(names, phones, ListEffect(cache, ttl, wfxDir, env).0)
  {
    hide Shows, IsKey, ParseWfxPath, ResolvedAll, Shown;
    var rp := ParseWfxPath(wfxDir);
    if !rp.isRoot && Hit(cache, wfxDir, env.now, ttl).None? && Listable(env) && env.listed.Some? {
      NothingToResolve(env.listed.value, env.linkStats, phones[rp.serial], rp.path);
    }
  }

  /** A listing fetched from the device is served from the cache for as long as it is live, and a failed one is not. */
  lemma ListingIsKept(cache: CacheMap, ttl: int, wfxDir: string, env: ListEnv, now: int)
    requires !ParseWfxPath(wfxDir).isRoot && IsLive(env.later, now, ttl)
    requires Hit(cache, wfxDir, env.now, ttl).None?
    ensures var (cache', listed) := ListEffect(cache, ttl, wfxDir, env);
      match Hit(cache', wfxDir, now, ttl)
      case Some(listing) => listed.rows == Some(Shown(listing))
      case None => listed.rows == None
  {
    hide Shown, ResolvedAll, ParseWfxPath;
  }

  // ----- runs -----

  /** The local files, the devices and the cache. */
  datatype State = State(now: Snapshot, cache: CacheMap)

  /** One call of the plugin, with all it is answered. */
  datatype Step =
    | ListDir(wfxDir: string, list: ListEnv)
    | Delete(wfxRemote: string, reply: ShellReply)
    | RemoveDir(wfxRemote: string, reply: ShellReply)
    | MakeDir(wfxRemote: string, reply: ShellReply)
    | RenameOrMove(wfxFrom: string, wfxTo: string, move: bool, overwrite: bool, rename: MoveEnv)
    | SetTime(wfxRemote: string, mtime: int, strategy: TouchStrategy, time: TimeEnv)
    | GetFile(wfxRemote: string, localPath: LocalPath, flags: nat, pid: TempName.pid_t, get: GetEnv)
    | PutFile(localPath: LocalPath, wfxRemote: string, flags: nat, put: PutEnv)

  function After<R>(st: State, e: Effect<R>): State {
    State(Final(st.now, e.trail), e.cache)
  }

  /** What a call makes of the state; PluginCore's methods do exactly this. */
  function Next(st: State, step: Step, ttl: int): State {
    match step
    case ListDir(dir, env) => st.(cache := ListEffect(st.cache, ttl, dir, env).0)
    case Delete(path, r) => After(st, DeleteEffect(st.now, st.cache, path, r))
    case RemoveDir(path, r) => After(st, RemoveDirEffect(st.now, st.cache, path, r))
    case MakeDir(path, r) => After(st, MakeDirEffect(st.now, st.cache, path, r))
    case RenameOrMove(from, to, move, overwrite, env) =>
      After(st, RenameOrMoveEffect(st.now, st.cache, from, to, move, overwrite, env))
    case SetTime(path, mtime, strategy, env) => After(st, SetTimeEffect(st.now, st.cache, path, mtime, strategy, env))
    case GetFile(path, localPath, flags, pid, env) =>
      After(st, GetEffect(st.now, st.cache, path, localPath, flags, pid, env))
    case PutFile(localPath, path, flags, env) => After(st, PutEffect(st.now, st.cache, localPath, path, flags, env))
  }

  /** The conditions of agreement: canonical paths, directories made and files put where their parent exists, a device
      that does what it is told, and failures without effect. */
  ghost predicate Fair(names: map<string, string>, st: State, step: Step) {
    match step
    case ListDir(dir, env) =>
      ParseWfxPath(dir).isRoot || (IsKey(names, dir) && HonestListing(st.now.phones, dir, env))
    case Delete(path, r) => IsKey(names, path) && Honest(r)
    case RemoveDir(path, r) => IsKey(names, path) && Honest(r)
    case MakeDir(path, r) => IsKey(names, path) && Honest(r) && ParentExists(st.now.phones, path)
    case RenameOrMove(from, to, _, _, env) =>
      && IsKey(names, from) && IsKey(names, to) && Honest(env.move)
      && Honest(env.copy.copy) && Honest(env.copy.time.epoch) && Honest(env.copy.time.date)
    case SetTime(path, _, _, env) => IsKey(names, path) && Honest(env.epoch) && Honest(env.date)
    case GetFile(path, _, _, _, env) => IsKey(names, path) && Honest(env.remove)
    case PutFile(_, path, _, env) => IsKey(names, path) && ParentExists(st.now.phones, path) && HarmlessUpload(env.upload)
  }

  lemma StepKeeps(names: map<string, string>, st: State, step: Step, ttl: int)
    requires NamesFit(names) && Agrees(names, st.now.phones, st.cache) && Fair(names, st, step)
    ensures Agrees(names, Next(st, step, ttl).now.phones, Next(st, step, ttl).cache)
  {
    hide Agrees, NamesFit, IsKey, Honest, ParentExists, HarmlessUpload, HonestListing;
    hide DeleteEffect, RemoveDirEffect, MakeDirEffect, RenameOrMoveEffect, SetTimeEffect, GetEffect, PutEffect, ListEffect;
    match step
    case ListDir(dir, env) => ListKeeps(names, st.now.phones, st.cache, ttl, dir, env);
    case Delete(path, r) => DeleteKeeps(names, st.now, st.cache, path, r);
    case RemoveDir(path, r) => RemoveDirKeeps(names, st.now, st.cache, path, r);
    case MakeDir(path, r) => MakeDirKeeps(names, st.now, st.cache, path, r);
    case RenameOrMove(from, to, move, overwrite, env) =>
      RenameOrMoveKeeps(names, st.now, st.cache, from, to, move, overwrite, env);
    case SetTime(path, mtime, strategy, env) => SetTimeKeeps(names, st.now, st.cache, path, mtime, strategy, env);
    case GetFile(path, localPath, flags, pid, env) =>
      GetKeeps(names, st.now, st.cache, path, localPath, flags, pid, env);
    case PutFile(localPath, path, flags, env) => PutKeeps(names, st.now, st.cache, localPath, path, flags, env);
  }

  function AfterRun(st: State, run: seq<Step>, ttl: int): State
    decreases |run|
  {
    if run == [] then st else AfterRun(Next(st, run[0], ttl), run[1..], ttl)
  }

  ghost predicate FairRun(names: map<string, string>, st: State, run: seq<Step>, ttl: int)
    decreases |run|
  {
    run != [] ==> Fair(names, st, run[0]) && FairRun(names, Next(st, run[0], ttl), run[1..], ttl)
  }

  /** After every fair run from an empty cache, whatever the device's first tree, every cached listing shows what the
      device holds. */
  lemma {:induction false} RunKeeps(names: map<string, string>, st: State, run: seq<Step>, ttl: int)
    requires NamesFit(names) && Agrees(names, st.now.phones, st.cache) && FairRun(names, st, run, ttl)
    ensures var end := AfterRun(st, run, ttl); Agrees(names, end.now.phones, end.cache)
    decreases |run|
  {
    hide Agrees, NamesFit, Next, Fair;
    if run != [] {
      StepKeeps(names, st, run[0], ttl);
      RunKeeps(names, Next(st, run[0], ttl), run[1..], ttl);
    }
  }

  // ----- hits -----

  /** What is compared of a row: not a directory's size and date. */
  function Compared(row: FindData.FindResult): FindData.FindResult {
    if row.isDir then row.(size := 0, mtime := 0) else row
  }

  ghost function RowSet(rows: seq<FindData.FindResult>): set<FindData.FindResult> {
    set i | 0 <= i < |rows| :: Compared(rows[i])
  }

  lemma {:induction false} RowsOfListing(listing: Listing, row: FindData.FindResult)
    ensures row in Shown(listing) <==>
      exists i :: 0 <= i < |listing| && !IsDots(listing[i].entry.name) && row == Row(listing[i])
  {
    if listing != [] {
      var n := |listing| - 1;
      RowsOfListing(listing[..n], row);
      assert forall i :: 0 <= i < n ==> listing[..n][i] == listing[i];
    }
  }

  /** Two listings that show the same directory have, row by row, the same to say. */
  lemma SameEntry(a: Listing, b: Listing, t: Tree, p: string, i: int) returns (j: int)
    requires Shows(a, t, p) && Shows(b, t, p) && 0 <= i < |a| && !IsDots(a[i].entry.name)
    ensures 0 <= j < |b| && !IsDots(b[j].entry.name) && Compared(Row(a[i])) == Compared(Row(b[j]))
  {
    var q := PathOf(p, a[i]);
    assert IsEntryOf(a[i], t, p);
    j :| Lists(b, j, p, q);
    assert IsEntryOf(b[j], t, p);
    JoinIsInjective(p, Text(a[i].entry.name), Text(b[j].entry.name));
    TextIsInjective(a[i].entry.name, b[j].entry.name);
  }

  lemma RowsWithin(a: Listing, b: Listing, t: Tree, p: string)
    requires Shows(a, t, p) && Shows(b, t, p)
    ensures RowSet(Shown(a)) <= RowSet(Shown(b))
  {
    hide Shows, Compared, Shown, Row, IsDots;
    forall r | r in RowSet(Shown(a))
      ensures r in RowSet(Shown(b))
    {
      var k :| 0 <= k < |Shown(a)| && r == Compared(Shown(a)[k]);
      RowsOfListing(a, Shown(a)[k]);
      var i :| 0 <= i < |a| && !IsDots(a[i].entry.name) && Shown(a)[k] == Row(a[i]);
      var j := SameEntry(a, b, t, p, i);
      RowsOfListing(b, Row(b[j]));
    }
  }

  /** The refinement: after every fair run, a listing served from the cache is the listing the device would give now. The
      directory would be found listable, and the rows - a directory's size and date aside - would be the same. */
  lemma HitsAreCurrent(names: map<string, string>, now: Snapshot, run: seq<Step>, ttl: int, wfxDir: string,
                       env: ListEnv, fresh_: ListEnv)
    requires NamesFit(names) && FairRun(names, State(now, map[]), run, ttl)
    requires var end := AfterRun(State(now, map[]), run, ttl);
      && Hit(end.cache, wfxDir, env.now, ttl).Some?
      && HonestListing(end.now.phones, wfxDir, fresh_) && fresh_.listed.Some?
    ensures var end := AfterRun(State(now, map[]), run, ttl);
      var cached, direct := ListEffect(end.cache, ttl, wfxDir, env).1.rows, ListEffect(map[], ttl, wfxDir, fresh_).1.rows;
      cached.Some? && direct.Some? && RowSet(cached.value) == RowSet(direct.value)
  {
    hide Shows, IsKey, ParseWfxPath, ResolvedAll, Shown, RowSet, AfterRun, FairRun, NamesFit, RootListed;
    RunKeeps(names, State(now, map[]), run, ttl);
    var end := AfterRun(State(now, map[]), run, ttl);
    var rp := ParseWfxPath(wfxDir);
    assert AgreesAt(names, end.now.phones, wfxDir, end.cache[wfxDir].listing);
    var t := end.now.phones[rp.serial];
    KeyIsBelowRoot(names, wfxDir);
    ShownIsListable(end.cache[wfxDir].listing, t, rp.path);
    NothingToResolve(fresh_.listed.value, fresh_.linkStats, t, rp.path);
    var cached, direct := end.cache[wfxDir].listing, ResolvedAll(fresh_.listed.value, fresh_.linkStats);
    RowsWithin(cached, direct, t, rp.path);
    RowsWithin(direct, cached, t, rp.path);
  }

  lemma ShownIsListable(listing: Listing, t: Tree, p: string)
    requires Shows(listing, t, p)
    ensures HasDir(t, p) && StatOf(t, p).There? && IsDirMode(StatOf(t, p).mode)
  {
  }

  /** The row describes the node: its kind, and for a file its size and date, 32 bits wide. */
  predicate Tells(row: FindData.FindResult, node: Node) {
    && row.isDir == node.Dir? && row.unixMode == ModeOf(node)
    && (node.File? ==> row.size == |node.data| % 0x1_0000_0000 && row.mtime == node.mtime % 0x1_0000_0000)
  }

  predicate IsRowOf(row: FindData.FindResult, t: Tree, p: string, q: string) {
    JoinWfxPath(p, Text(row.name)) == q && IsChild(p, q) && q in t && Tells(row, t[q])
  }

  /** A listing that shows a directory has exactly one row for each of its children, which tells what it is, and no row
      for anything else. */
  lemma RowsAreChildren(listing: Listing, t: Tree, p: string)
    requires Shows(listing, t, p)
    ensures forall row :: row in Shown(listing) ==> IsRowOf(row, t, p, JoinWfxPath(p, Text(row.name)))
    ensures forall q :: q in t && IsChild(p, q) ==> exists row :: row in Shown(listing) && IsRowOf(row, t, p, q)
    ensures forall r1, r2 :: r1 in Shown(listing) && r2 in Shown(listing) && r1.name == r2.name ==> r1 == r2
  {
    hide Shown, ModeOf, ParentWfxDir, JoinWfxPath, Text;
    forall row | row in Shown(listing)
      ensures IsRowOf(row, t, p, JoinWfxPath(p, Text(row.name)))
    {
      RowsOfListing(listing, row);
      var i :| 0 <= i < |listing| && !IsDots(listing[i].entry.name) && row == Row(listing[i]);
      RowTells(listing[i], t, p);
    }
    forall q | q in t && IsChild(p, q)
      ensures exists row :: row in Shown(listing) && IsRowOf(row, t, p, q)
    {
      var i :| Lists(listing, i, p, q);
      RowsOfListing(listing, Row(listing[i]));
      RowTells(listing[i], t, p);
      assert IsRowOf(Row(listing[i]), t, p, q);
    }
    forall r1, r2 | r1 in Shown(listing) && r2 in Shown(listing) && r1.name == r2.name
      ensures r1 == r2
    {
      RowsOfListing(listing, r1);
      RowsOfListing(listing, r2);
    }
  }

  lemma RowTells(e: ListedEntry, t: Tree, p: string)
    requires IsEntryOf(e, t, p)
    ensures IsRowOf(Row(e), t, p, PathOf(p, e))
  {
  }
}
