/** When a cached listing goes stale: the exact limits of the agreement between the cache and the device. */
module Staleness {
  import opened Bytes
  import opened Cache
  import opened Client
  import opened Commands
  import opened Device
  import opened Effects
  import opened Optional
  import opened Paths
  import opened Refinement
  import opened Safety
  import opened Trees
  import opened World
  import Shell

  /** A tree proper: it has a root, and everything else lies in a directory. */
  ghost predicate Rooted(t: Tree) {
    HasDir(t, "/") && forall q :: q in t ==> Canonical(q) && (q != "/" ==> HasDir(t, ParentWfxDir(q)))
  }

  /** Nothing lies under what is not there. */
  lemma {:induction false} NothingBeneath(t: Tree, a: string, q: string)
    requires Rooted(t) && Canonical(a) && a !in t && q in t
    ensures !Beneath(a, q)
    decreases |q|
  {
    if Beneath(a, q) && q != "/" {
      ParentIsCanonical(q);
      NothingBeneath(t, a, ParentWfxDir(q));
      ChildIsOutside(a, ParentWfxDir(q), q);
    }
  }

  // ----- agreement under any name -----

  /** The cache key, however spelled, names that directory of that device. */
  predicate LeadsTo(k: string, serial: string, dir: string) {
    ParseWfxPath(k).serial == serial && Resolve(ParseWfxPath(k).path) == dir
  }

  ghost predicate ShowsItsPlace(phones: Phones, k: string, listing: Listing) {
    ParseWfxPath(k).serial in phones && Shows(listing, phones[ParseWfxPath(k).serial], Resolve(ParseWfxPath(k).path))
  }

  /** Every cached listing shows what the device holds in the place its key leads to, be the key canonical or not. */
  ghost predicate AgreesAnywhere(phones: Phones, cache: CacheMap) {
    forall k :: k in cache ==> ShowsItsPlace(phones, k, cache[k].listing)
  }

  /** For a cache that has only canonical keys this is the agreement that every fair run keeps. */
  lemma AgreementIsSpecial(names: map<string, string>, phones: Phones, cache: CacheMap)
    requires forall k :: k in cache ==> IsKey(names, k)
    ensures Agrees(names, phones, cache) <==> AgreesAnywhere(phones, cache)
  {
    hide Shows, Key, Canonical, Resolve, ParseWfxPath, IsKey;
    forall k | k in cache
      ensures AgreesAt(names, phones, k, cache[k].listing) <==> ShowsItsPlace(phones, k, cache[k].listing)
    {
      KeyResolves(names, k);
    }
  }

  /** When something new appears on a device, the listings that are kept stay right if and only if no key among them, in
      any spelling, leads to the directory it appears in. */
  lemma CreationIsSeen(phones: Phones, phones': Phones, kept: CacheMap, serial: string, a: string)
    requires serial in phones && AgreesAnywhere(phones, kept)
    requires Rooted(phones[serial]) && Canonical(a) && a !in phones[serial]
    requires ConfinedTo(phones, phones', serial, a, a) && a in phones'[serial]
    ensures AgreesAnywhere(phones', kept) <==> forall k :: k in kept ==> !LeadsTo(k, serial, ParentWfxDir(a))
  {
    hide Shows, Canonical, ParseWfxPath, AlikeAt, ParentWfxDir, Resolve;
    forall k | k in kept
      ensures ShowsItsPlace(phones', k, kept[k].listing) <==> !LeadsTo(k, serial, ParentWfxDir(a))
    {
      assert ShowsItsPlace(phones, k, kept[k].listing);
      var rp := ParseWfxPath(k);
      if rp.serial == serial {
        var p := Resolve(rp.path);
        if p == ParentWfxDir(a) {
          NewChildIsMissed(kept[k].listing, phones[serial], phones'[serial], p, a);
        } else {
          OthersAreSpared(kept[k].listing, phones[serial], phones'[serial], p, a);
        }
      }
    }
  }

  lemma NewChildIsMissed(listing: Listing, t: Tree, t': Tree, p: string, a: string)
    requires Shows(listing, t, p) && p == ParentWfxDir(a) && a != "/" && a !in t && a in t'
    ensures !Shows(listing, t', p)
  {
    forall i
      ensures !Lists(listing, i, p, a)
    {
      if 0 <= i < |listing| && !IsDots(listing[i].entry.name) {
        assert IsEntryOf(listing[i], t, p);
      }
    }
  }

  lemma OthersAreSpared(listing: Listing, t: Tree, t': Tree, p: string, a: string)
    requires Shows(listing, t, p) && Rooted(t) && Canonical(a) && a !in t && Confined(t, t', a, a) && p != ParentWfxDir(a)
    ensures Shows(listing, t', p)
  {
    hide Shows, Canonical, ParentWfxDir, Alike, Beneath;
    ShownIsListable(listing, t, p);
    NothingBeneath(t, a, p);
    forall q | IsChild(p, q)
      ensures AlikeAt(t, t', q)
    {
      if Beneath(a, q) {
        ChildIsOutside(a, p, q);
      }
    }
    ShowsStays(listing, t, t', p);
  }

  // ----- mkdir -p -----

  /** The first directory mkdir -p has to make: the path itself, or the highest missing one above it. */
  function FirstMade(t: Tree, p: string): string
    decreases |p|
  {
    var parent := ParentWfxDir(p);
    if p in t || parent in t || |parent| >= |p| then p else FirstMade(t, parent)
  }

  lemma {:induction false} MakeDirsReach(t: Tree, p: string, mode: int, now: int)
    requires HasDir(t, "/") && Canonical(p) && p !in t
    ensures var a := FirstMade(t, p);
      && Canonical(a) && a !in t && a in MakeDirs(t, p, mode, now) && Beneath(a, p) && ParentWfxDir(a) in t
      && forall q :: !Beneath(a, q) ==> AlikeAt(t, MakeDirs(t, p, mode, now), q)
    decreases |p|
  {
    var parent := ParentWfxDir(p);
    ParentIsCanonical(p);
    if parent !in t {
      MakeDirsReach(t, parent, mode, now);
      BeneathChain(FirstMade(t, parent), parent, p);
    }
  }

  lemma BeneathChain(a: string, b: string, c: string)
    requires Beneath(a, b) && Beneath(b, c) && b != "/"
    ensures Beneath(a, c)
  {
    if a != "/" {
      CoversChain(a, b, c);
    }
  }

  /** A successful mkdir -p of a missing path, whatever is missing above it and however it is spelled: the cache is right
      afterwards if and only if it keeps no listing, under any name, of the directory in which the first new directory
      was made. */
  lemma MakeDirExactly(now: Snapshot, cache: CacheMap, wfxRemote: string, r: ShellReply)
    requires AgreesAnywhere(now.phones, cache)
    requires var rp := ParseWfxPath(wfxRemote);
      && Shell.NulFree(rp.path) && rp.serial in now.phones && Rooted(now.phones[rp.serial])
      && Resolve(rp.path) !in now.phones[rp.serial]
      && Obedient(r) && IsSuccess(r) && SilenceIsSuccess(MakeDirCommand(rp.path), now.phones[rp.serial], r)
    ensures var rp := ParseWfxPath(wfxRemote); var e := MakeDirEffect(now, cache, wfxRemote, r);
      var above := ParentWfxDir(FirstMade(now.phones[rp.serial], Resolve(rp.path)));
      && e.result
      && (AgreesAnywhere(Final(now, e.trail).phones, e.cache) <==>
          forall k :: k in Dropped(cache, wfxRemote) ==> !LeadsTo(k, rp.serial, above))
  {
    hide AgreesAnywhere, LeadsTo, Meaning, ParseWfxPath, MakeDirCommand, Canonical, Resolve, Run, FirstMade, MakeDirs, Retimed,
         IsSilent, ParentWfxDir, Dropped, Rooted, SilenceIsSuccess, Confined;
    var rp := ParseWfxPath(wfxRemote);
    var t, p := now.phones[rp.serial], Resolve(rp.path);
    var line := MakeDirCommand(rp.path);
    ResolveIsCanonical(rp.path);
    RootIsThere(t);
    Commands.MeaningOfMakeDir(rp.path);
    assert Obeys(line, t, r);
    SilentMakeDir(line, rp.path, t, r);
    MakeDirsReach(t, p, r.manner.mode, r.manner.now);
    var a := FirstMade(t, p);
    var made := MakeDirs(t, p, r.manner.mode, r.manner.now);
    var phones' := AfterShell(now.phones, rp.serial, line, r);
    RetimedIsAlike(made, r.manner.dirTimes);
    MadeIsConfined(t, made, phones'[rp.serial], a);
    FewerAgree(now.phones, cache, wfxRemote);
    CreationIsSeen(now.phones, phones', Dropped(cache, wfxRemote), rp.serial, a);
  }

  lemma RootIsThere(t: Tree)
    requires Rooted(t)
    ensures HasDir(t, "/")
  {
  }

  lemma SilentMakeDir(line: string, p: string, t: Tree, r: ShellReply)
    requires Meaning(line) == Some(Mkdir(p)) && IsSuccess(r) && SilenceIsSuccess(line, t, r)
    ensures TreeAfter(line, t, r.manner) == Retimed(MakeDirs(t, Resolve(p), r.manner.mode, r.manner.now), r.manner.dirTimes)
  {
    hide Meaning, MakeDirs, Retimed, IsSilent, Resolve;
  }

  lemma MadeIsConfined(t: Tree, made: Tree, t': Tree, a: string)
    requires forall q :: !Beneath(a, q) ==> AlikeAt(t, made, q)
    requires forall q :: AlikeAt(made, t', q)
    ensures Confined(t, t', a, a) && (a in made ==> a in t')
  {
    forall q | !Beneath(a, q)
      ensures AlikeAt(t, t', q)
    {
      assert AlikeAt(t, made, q) && AlikeAt(made, t', q);
    }
    assert AlikeAt(made, t', a);
  }

  lemma FewerAgree(phones: Phones, cache: CacheMap, wfxPath: string)
    requires AgreesAnywhere(phones, cache)
    ensures AgreesAnywhere(phones, Dropped(cache, wfxPath))
  {
    hide ShowsItsPlace, Dropped;
    DroppedIsLess(cache, wfxPath);
  }

  // ----- failed uploads -----

  /** An upload that fails - other than by being cancelled - after the device had begun a new file: the cache, which
      forgets nothing, is right afterwards if and only if it holds no listing, under any name, of the file's directory. */
  lemma FailedUploadExactly(now: Snapshot, cache: CacheMap, localPath: LocalPath, wfxRemote: string, flags: nat, env: PutEnv)
    requires AgreesAnywhere(now.phones, cache)
    requires PutRefusal(now, localPath, flags, env) == FS_FILE_OK
    requires env.upload.err.Error? && env.upload.err.message != CANCELLED && env.upload.partial.Some?
    requires var rp := ParseWfxPath(wfxRemote);
      && rp.serial in now.phones && Rooted(now.phones[rp.serial]) && Resolve(rp.path) !in now.phones[rp.serial]
      && HasDir(now.phones[rp.serial], ParentWfxDir(Resolve(rp.path)))
    ensures var rp := ParseWfxPath(wfxRemote); var e := PutEffect(now, cache, localPath, wfxRemote, flags, env);
      && e.result == FS_FILE_WRITEERROR
      && (AgreesAnywhere(Final(now, e.trail).phones, e.cache) <==>
          forall k :: k in cache ==> !LeadsTo(k, rp.serial, ParentWfxDir(Resolve(rp.path))))
  {
    hide AgreesAnywhere, LeadsTo, ParseWfxPath, Canonical, ParentWfxDir, Resolve, Dropped, Rooted, CANCELLED, PhonesAfterUpload;
    var rp, file := ParseWfxPath(wfxRemote), now.disk[localPath];
    var phones' := PhonesAfterUpload(now.phones, rp.serial, rp.path, file.data, env.mode, file.mtime, env.upload);
    ResolveIsCanonical(rp.path);
    UploadIsConfined(now.phones, rp.serial, rp.path, file.data, env.mode, file.mtime, env.upload);
    PartialIsThere(now.phones, rp.serial, rp.path, file.data, env.mode, file.mtime, env.upload);
    CreationIsSeen(now.phones, phones', cache, rp.serial, Resolve(rp.path));
  }

  lemma PartialIsThere(phones: Phones, serial: string, path: string, content: seq<byte>, mode: int, mtime: int, u: Upload)
    requires serial in phones && u.err.Error? && u.partial.Some?
    ensures Resolve(path) in PhonesAfterUpload(phones, serial, path, content, mode, mtime, u)[serial]
  {
    hide MakeDirs, Resolve;
  }

  // ----- two names for one place -----

  /** A key at or under a path starts with the same device name. */
  lemma SameComponent(name: string, below: string, other: string, q: string)
    requires '/' !in name && '/' !in other && IsRest(below) && IsRest(q)
    requires Covers("/" + other + q, "/" + name + below)
    ensures name == other
  {
    var u, v := "/" + other + (q + "/"), "/" + name + (below + "/");
    var d, k := "/" + other + q, "/" + name + below;
    assert u == d + "/" && v == k + "/" && u <= v;
    FirstSlash(other, q + "/");
    FirstSlash(name, below + "/");
    assert v[|other| + 1] == u[|other| + 1];
    assert |name| <= |other|;
    assert u[|name| + 1] == v[|name| + 1];
    assert forall i :: 0 <= i < |name| ==> other[i] == u[i + 1] == v[i + 1] == name[i];
  }

  lemma FirstSlash(name: string, rest: string)
    requires '/' !in name && rest != "" && rest[0] == '/'
    ensures IndexOf("/" + name + rest, '/', 1) == |name| + 1
  {
    var w := "/" + name + rest;
    assert w[|name| + 1] == '/';
    assert forall i :: 1 <= i <= |name| ==> w[i] == name[i - 1];
  }

  /** A key that starts with one device name is not at or under a path that starts with another. */
  lemma OtherComponent(name: string, below: string, other: string, q: string)
    requires '/' !in name && '/' !in other && name != other && IsRest(below) && IsRest(q)
    ensures !Covers("/" + other + q, "/" + name + below)
  {
    if Covers("/" + other + q, "/" + name + below) {
      SameComponent(name, below, other, q);
    }
  }

  lemma ParentBelow(name: string, path: string) returns (q: string)
    requires path != "" && path[0] == '/'
    ensures ParentWfxDir("/" + name + path) == "/" + name + q && IsRest(q)
  {
    LastSlashOfSum("/" + name, path);
    var i := LastIndexOf(path, '/');
    q := path[..i];
    var w := "/" + name + path;
    assert w[..|name| + 1 + i] == "/" + name + q;
  }

  /** What is done under one name of a device drops nothing that is cached under another. */
  lemma OtherNameIsKept(cache: CacheMap, name: string, path: string, other: string, below: string)
    requires '/' !in name && '/' !in other && name != other && IsRest(path) && path != "" && IsRest(below)
    ensures "/" + other + below in Dropped(cache, "/" + name + path) <==> "/" + other + below in cache
  {
    hide ParentWfxDir, Covers, Dropped;
    var wfx := "/" + name + path;
    OtherComponent(other, below, name, path);
    var q := ParentBelow(name, path);
    OtherComponent(other, below, name, q);
    DroppedIsForgotten(cache, wfx);
  }

  /** A device whose model is known has two names, its serial number and its display name. A directory made under either
      makes the cache wrong if the listing of the directory it is made in is cached under the other. */
  lemma TwoNamesGoStale(now: Snapshot, cache: CacheMap, name: string, path: string, other: string, below: string,
                        serial: string, r: ShellReply)
    requires name != "" && '/' !in name && SerialFromDisplayName(name) == serial
    requires other != "" && '/' !in other && SerialFromDisplayName(other) == serial && name != other
    requires IsRest(path) && path != "" && IsRest(below) && "/" + other + below in cache
    requires AgreesAnywhere(now.phones, cache) && Shell.NulFree(DevicePath(path))
    requires serial in now.phones && Rooted(now.phones[serial]) && Resolve(DevicePath(path)) !in now.phones[serial]
    requires Resolve(DevicePath(below)) == ParentWfxDir(FirstMade(now.phones[serial], Resolve(DevicePath(path))))
    requires Obedient(r) && IsSuccess(r) && SilenceIsSuccess(MakeDirCommand(DevicePath(path)), now.phones[serial], r)
    ensures var e := MakeDirEffect(now, cache, "/" + name + path, r);
      e.result && !AgreesAnywhere(Final(now, e.trail).phones, e.cache)
  {
    hide ParseWfxPath, ParentWfxDir, Dropped, AgreesAnywhere, FirstMade, MakeDirEffect, Rooted, Obedient, SilenceIsSuccess,
         MakeDirCommand, Resolve, DevicePath;
    var wfx, k := "/" + name + path, "/" + other + below;
    ParseOfAnyName(name, path);
    ParseOfAnyName(other, below);
    MakeDirExactly(now, cache, wfx, r);
    OtherNameIsKept(cache, name, path, other, below);
    assert LeadsTo(k, serial, ParentWfxDir(FirstMade(now.phones[serial], Resolve(DevicePath(path)))));
  }

  lemma ParseOfAnyName(name: string, rest: string)
    requires name != "" && '/' !in name && IsRest(rest)
    ensures ParseWfxPath("/" + name + rest) == RemotePath(false, SerialFromDisplayName(name), DevicePath(rest))
  {
    ParseOfName(name, rest);
  }

  /** The names of a device whose model is known: both lead to it. */
  lemma BothNamesLead(model: string, serial: string)
    requires IsDevice(model, serial) && model != "" && '/' !in model && '/' !in serial
    ensures var name := DisplayName(model, serial);
      && name != serial && '/' !in name && SerialFromDisplayName(name) == serial && SerialFromDisplayName(serial) == serial
  {
    SerialOfDisplayName(model, serial);
    SerialOfDisplayName("", serial);
    assert |DisplayName(model, serial)| > |serial|;
  }

  /** A path with a trailing slash: its directory's listing is not dropped, so a directory made that way makes the cache
      wrong if that listing is cached. */
  lemma TrailingSlashGoesStale(now: Snapshot, cache: CacheMap, names: map<string, string>, serial: string, p: string,
                               r: ShellReply)
    requires NamesFit(names) && serial in names && Canonical(p) && p != "/" && Shell.NulFree(p + "/")
    requires Key(names, serial, ParentWfxDir(p)) in cache && AgreesAnywhere(now.phones, cache)
    requires serial in now.phones && Rooted(now.phones[serial])
    requires p !in now.phones[serial] && HasDir(now.phones[serial], ParentWfxDir(p))
    requires Obedient(r) && IsSuccess(r) && SilenceIsSuccess(MakeDirCommand(p + "/"), now.phones[serial], r)
    ensures var e := MakeDirEffect(now, cache, Key(names, serial, p) + "/", r);
      e.result && !AgreesAnywhere(Final(now, e.trail).phones, e.cache)
  {
    hide ParseWfxPath, Dropped, AgreesAnywhere, MakeDirEffect, Rooted, Obedient, SilenceIsSuccess, MakeDirCommand, Resolve,
         Canonical, ParentWfxDir;
    var name, wfx := names[serial], Key(names, serial, p) + "/";
    var k := Key(names, serial, ParentWfxDir(p));
    CanonicalShape(p);
    assert wfx == "/" + name + (p + "/");
    ParseOfAnyName(name, p + "/");
    SpellingsMeet(p);
    ResolveCanonical(p);
    ParentIsCanonical(p);
    KeyIsKey(names, serial, ParentWfxDir(p)) by {
      assert Shell.NulFree(p);
      ParentIsPiece(p);
    }
    ResolveCanonical(ParentWfxDir(p));
    MakeDirExactly(now, cache, wfx, r);
    assert FirstMade(now.phones[serial], p) == p;
    SlashKeeps(cache, name, p, k);
    assert LeadsTo(k, serial, ParentWfxDir(p));
  }

  lemma ParentIsPiece(p: string)
    requires Shell.NulFree(p)
    ensures Shell.NulFree(ParentWfxDir(p))
  {
  }

  /** A key that is shorter than the path without its slash is not dropped. */
  lemma SlashKeeps(cache: CacheMap, name: string, p: string, k: string)
    requires p != "" && p[|p| - 1] != '/' && |k| < |"/" + name + p|
    ensures k in Dropped(cache, "/" + name + p + "/") <==> k in cache
  {
    hide ParentWfxDir, Dropped;
    var d := "/" + name + p;
    LastIndexSplit(d, '/', "");
    assert d + ['/'] + "" == d + "/" && (d + "/")[..|d|] == d;
    ParentOfSlash(d);
    DroppedIsForgotten(cache, d + "/");
  }

  lemma ParentOfSlash(d: string)
    requires d != "" && LastIndexOf(d + "/", '/') == |d|
    ensures ParentWfxDir(d + "/") == d
  {
    assert (d + "/")[..|d|] == d;
  }
}
