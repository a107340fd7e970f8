/** The virtual tree: "/" lists devices, "/<display name>" is a device, and the rest is a path on it. */
module Paths {
  import opened Bytes

  datatype RemotePath = RemotePath(isRoot: bool, serial: string, path: string)

  function ParseRemotePath(wfxPath: string): (r: RemotePath)
    ensures r.path != "" && r.path[0] == '/'
  {
    if wfxPath == "" || wfxPath == "/" then RemotePath(true, "", "/")
    else
      var start := if wfxPath[0] == '/' then 1 else 0;
      var nextSlash := IndexOf(wfxPath, '/', start);
      if nextSlash < 0 then RemotePath(false, wfxPath[start..], "/")
      else
        var rest := wfxPath[nextSlash..];
        RemotePath(false, wfxPath[start..nextSlash], if |rest| > 1 then rest else "/")
  }

  function JoinWfxPath(dir: string, leaf: string): string {
    if dir != "" && dir[|dir| - 1] == '/' then dir + leaf else dir + "/" + leaf
  }

  /** The directory that contains a path; "/" when there is no further separator. */
  function ParentWfxDir(wfxPath: string): string {
    var pos := LastIndexOf(wfxPath, '/');
    if pos <= 0 then "/" else wfxPath[..pos]
  }

  /** What a name in a directory is joined to is the directory that contains it. */
  lemma ParentOfJoin(dir: string, leaf: string)
    requires dir == "/" || (dir != "" && dir[|dir| - 1] != '/')
    requires '/' !in leaf
    ensures ParentWfxDir(JoinWfxPath(dir, leaf)) == dir
  {
    var d := if dir == "/" then "" else dir;
    var p := d + ['/'] + leaf;
    LastIndexSplit(d, '/', leaf);
    assert JoinWfxPath(dir, leaf) == p && p[..|d|] == d;
  }

  // ----- display names: "<model> (<serial>)" -----

  function DisplayName(model: string, serial: string): string {
    if model != "" then model + " (" + serial + ")" else serial
  }

  /** The position of the last " (" (rfind), or -1. */
  function LastOpen(s: string): (i: int)
    ensures i == -1 || 0 <= i <= |s| - 2
    ensures i >= 0 ==> s[i] == ' ' && s[i + 1] == '('
    ensures forall j :: i < j < |s| - 1 ==> !(s[j] == ' ' && s[j + 1] == '(')
    decreases |s|
  {
    if |s| < 2 then -1
    else if s[|s| - 2] == ' ' && s[|s| - 1] == '(' then |s| - 2
    else LastOpen(s[..|s| - 1])
  }

  function SerialFromDisplayName(name: string): string {
    if name == "" || name[|name| - 1] != ')' then name
    else
      var openPos := LastOpen(name);
      if openPos < 0 then name
      else
        var start, end := openPos + 2, |name| - 1;
        if end <= start then name else name[start..end]
  }

  /** What every operation does with a path it is given. */
  function ParseWfxPath(wfxPath: string): (r: RemotePath)
    ensures r.path != "" && r.path[0] == '/'
  {
    var rp := ParseRemotePath(wfxPath);
    rp.(serial := SerialFromDisplayName(rp.serial))
  }

  /** A serial number or a model as the device list yields them. */
  predicate IsField(s: string) {
    s != "" && ' ' !in s && '\t' !in s
  }

  predicate IsDevice(model: string, serial: string) {
    IsField(serial) && (model == "" || IsField(model))
  }

  /** The serial can be read back out of the display name, whatever the model. */
  lemma SerialOfDisplayName(model: string, serial: string)
    requires IsField(serial)
    ensures SerialFromDisplayName(DisplayName(model, serial)) == serial
  {
    var name := DisplayName(model, serial);
    if model == "" {
      assert forall i :: 0 <= i < |name| ==> name[i] in serial;
    } else {
      var i := LastOpen(name);
      assert name[|model|] == ' ' && name[|model| + 1] == '(';
      assert i >= |model|;
      assert forall j :: |model| + 2 <= j < |name| - 1 ==> name[j] == serial[j - |model| - 2] && name[j] in serial;
      assert name[|name| - 1] == ')';
      assert i == |model|;
      assert name[|model| + 2..|name| - 1] == serial;
    }
  }

  /** What follows a device's name in a path: nothing, or a path on the device. */
  predicate IsRest(rest: string) {
    rest == "" || rest[0] == '/'
  }

  function DevicePath(rest: string): string {
    if |rest| > 1 then rest else "/"
  }

  /** The name before the first slash, and all from it on. */
  lemma ParseOfName(name: string, rest: string)
    requires name != "" && '/' !in name && IsRest(rest)
    ensures ParseRemotePath("/" + name + rest) == RemotePath(false, name, DevicePath(rest))
  {
    var w := "/" + name + rest;
    var i := IndexOf(w, '/', 1);
    assert forall j :: 1 <= j <= |name| ==> w[j] == name[j - 1] && w[j] in name;
    if rest == "" {
      assert i == -1;
      assert w[1..] == name;
    } else {
      assert w[|name| + 1] == '/';
      assert i == |name| + 1;
      assert w[1..i] == name && w[i..] == rest;
    }
  }

  /** A path below a device's display name leads to exactly that device and that path - if and only if the name
      has no slash in it. */
  lemma NamingChain(model: string, serial: string, rest: string)
    requires IsDevice(model, serial) && IsRest(rest)
    ensures var name := DisplayName(model, serial);
      ParseWfxPath("/" + name + rest) == RemotePath(false, serial, DevicePath(rest)) <==> '/' !in name
  {
    var name := DisplayName(model, serial);
    SerialOfDisplayName(model, serial);
    if '/' !in name {
      ParseOfName(name, rest);
    } else {
      SlashBreaksName(model, serial, rest);
    }
  }

  lemma SerialIsNoLonger(name: string)
    ensures |SerialFromDisplayName(name)| <= |name|
  {
  }

  lemma SlashBreaksName(model: string, serial: string, rest: string)
    requires IsDevice(model, serial) && IsRest(rest) && '/' in DisplayName(model, serial)
    ensures ParseWfxPath("/" + DisplayName(model, serial) + rest) != RemotePath(false, serial, DevicePath(rest))
  {
    var name := DisplayName(model, serial);
    var w := "/" + name + rest;
    var k :| 0 <= k < |name| && name[k] == '/';
    assert w[k + 1] == '/';
    var i := IndexOf(w, '/', 1);
    assert 1 <= i <= k + 1;
    assert |w[i..]| == |name| + 1 - i + |rest|;
    if |w[i..]| == 1 {
      assert i == |name|;
      assert w[i] == name[|name| - 1];
      assert name == serial;
      SerialIsNoLonger(w[1..i]);
    }
  }

  /** The root, and nothing else, is the root; everywhere else a leading slash makes no difference. */
  lemma LeadingSlashIsOptional(wfxPath: string)
    ensures ParseWfxPath(wfxPath).isRoot <==> wfxPath in {"", "/"}
    ensures wfxPath != "" && wfxPath[0] != '/' ==> ParseWfxPath("/" + wfxPath) == ParseWfxPath(wfxPath)
  {
    if wfxPath != "" && wfxPath[0] != '/' {
      var w := "/" + wfxPath;
      var i, j := IndexOf(w, '/', 1), IndexOf(wfxPath, '/', 0);
      assert forall k :: 0 <= k < |wfxPath| ==> w[k + 1] == wfxPath[k];
      if j >= 0 {
        assert w[j + 1] == '/';
        assert i == j + 1 && w[1..i] == wfxPath[..j] && w[i..] == wfxPath[j..];
      } else {
        assert i == -1 && w[1..] == wfxPath;
      }
    }
  }

  /** No two characters in a row are " (". */
  predicate HasNoOpen(s: string) {
    forall i :: 0 <= i < |s| - 1 ==> !(s[i] == ' ' && s[i + 1] == '(')
  }

  /** The name is anything at all, " (", the serial number and ")". */
  predicate IsNameFor(name: string, before: string, serial: string) {
    serial != "" && HasNoOpen(serial + ")") && name == before + " (" + serial + ")"
  }

  /** A name of this form yields the serial number in it; any other name is one itself. */
  lemma SerialIsBetween(name: string)
    ensures forall before, serial :: IsNameFor(name, before, serial) ==> SerialFromDisplayName(name) == serial
    ensures SerialFromDisplayName(name) == name || exists before :: IsNameFor(name, before, SerialFromDisplayName(name))
  {
    forall before, serial | IsNameFor(name, before, serial)
      ensures SerialFromDisplayName(name) == serial
    {
      LastOpenIs(before, serial);
    }
    if SerialFromDisplayName(name) != name {
      var i := LastOpen(name);
      var s := name[i + 2..|name| - 1];
      assert forall k :: 0 <= k < |s + ")"| ==> (s + ")")[k] == name[i + 2 + k];
      assert name == name[..i] + " (" + s + ")";
      assert IsNameFor(name, name[..i], s);
    }
  }

  lemma LastOpenIs(before: string, serial: string)
    requires serial != "" && HasNoOpen(serial + ")")
    ensures SerialFromDisplayName(before + " (" + serial + ")") == serial
  {
    var name, tail := before + " (" + serial + ")", serial + ")";
    var i := LastOpen(name);
    assert name[|before|] == ' ' && name[|before| + 1] == '(';
    assert forall k :: 0 <= k < |tail| ==> tail[k] == name[|before| + 2 + k];
    forall j | |before| < j < |name| - 1
      ensures !(name[j] == ' ' && name[j + 1] == '(')
    {
      if j > |before| + 1 {
        assert name[j] == tail[j - |before| - 2] && name[j + 1] == tail[j - |before| - 1];
      }
    }
    assert name[|before| + 2..|name| - 1] == serial;
  }
}
