/** The hidden name a download is written to while it replaces an existing local file. */
module TempName {
  import opened Bytes
  import opened Decimal
  import opened Utf

  const MAX_FILE_NAME_BYTES: nat := 255
  const SLASH: byte := 0x2F
  const DOT: byte := 0x2E
  const TEMP_DOWNLOAD_SUFFIX: seq<byte> := Ascii(".adbwfx.tmp.")

  /** A positive process id that fits 32 bits. */
  type pid_t = p: int | 0 < p < 0x8000_0000 witness 1

  /** Where to cut `s` at or before `n` without splitting a UTF-8 character: back over continuation octets. */
  function BackOff(s: seq<byte>, n: nat): (r: nat)
    requires n < |s|
    ensures r <= n
    ensures r == 0 || !IsTail(s[r])
    ensures forall i :: r < i <= n ==> IsTail(s[i])
  {
    if n > 0 && IsTail(s[n]) then BackOff(s, n - 1) else n
  }

  function TruncatedLength(s: seq<byte>, maxBytes: nat): (r: nat)
    ensures r <= |s| && r <= maxBytes
  {
    if |s| <= maxBytes then |s| else BackOff(s, maxBytes)
  }

  method Utf8TruncatedLength(s: seq<byte>, maxBytes: nat) returns (n: nat)
    ensures n == TruncatedLength(s, maxBytes)
  {
    if |s| <= maxBytes {
      return |s|;
    }
    n := maxBytes;
    while n > 0 && IsTail(s[n])
      invariant n <= maxBytes && BackOff(s, n) == BackOff(s, maxBytes)
    {
      n := n - 1;
    }
  }

  function Directory(path: seq<byte>): seq<byte> {
    path[..LastIndexOf(path, SLASH) + 1]
  }

  function BaseName(path: seq<byte>): seq<byte> {
    path[LastIndexOf(path, SLASH) + 1..]
  }

  function Suffix(pid: pid_t): seq<byte> {
    TEMP_DOWNLOAD_SUFFIX + ToBytes(pid)
  }

  /** How much of the target's name fits between the dot and the suffix. */
  function Budget(pid: pid_t): nat {
    if MAX_FILE_NAME_BYTES > |Suffix(pid)| + 1 then MAX_FILE_NAME_BYTES - |Suffix(pid)| - 1 else 0
  }

  function TempComponent(base: seq<byte>, pid: pid_t): seq<byte> {
    [DOT] + base[..TruncatedLength(base, Budget(pid))] + Suffix(pid)
  }

  function TempDownloadPath(localPath: seq<byte>, pid: pid_t): seq<byte> {
    Directory(localPath) + TempComponent(BaseName(localPath), pid)
  }

  lemma SuffixIsPlain(pid: pid_t)
    ensures |Suffix(pid)| <= 22
    ensures forall i :: 0 <= i < |Suffix(pid)| ==> Suffix(pid)[i] < 0x80 && Suffix(pid)[i] != SLASH
  {
    assert Power10(10) == 10000000000 by {
      assert Power10(5) == 100000;
      assert Power10(10) == 10 * (10 * (10 * (10 * (10 * Power10(5)))));
    }
    DigitCount(pid, 10, Power10(10));
    var name := ".adbwfx.tmp.";
    assert forall i :: 0 <= i < |name| ==> name[i] as int < 0x80 && name[i] != '/';
  }

  lemma {:induction false} AsciiIsUtf8(a: seq<byte>, rest: seq<byte>)
    requires forall i :: 0 <= i < |a| ==> a[i] < 0x80
    requires IsUtf8(rest)
    ensures IsUtf8(a + rest)
  {
    if a == [] {
      assert a + rest == rest;
    } else {
      AsciiIsUtf8(a[1..], rest);
      assert (a + rest)[1..] == a[1..] + rest;
    }
  }

  lemma CharPrefix(s: seq<byte>, t: seq<byte>)
    requires s <= t && Utf8Char(s) > 0
    ensures Utf8Char(t) == Utf8Char(s)
  {
  }

  lemma {:induction false} Utf8Concat(s: seq<byte>, t: seq<byte>)
    requires IsUtf8(s) && IsUtf8(t)
    ensures IsUtf8(s + t)
    decreases |s|
  {
    hide Utf8Char;
    if s == [] {
      assert s + t == t;
    } else {
      var n := Utf8Char(s);
      CharPrefix(s, s + t);
      Utf8Concat(s[n..], t);
      assert (s + t)[n..] == s[n..] + t;
    }
  }

  lemma CharTails(s: seq<byte>, i: nat)
    requires 0 < i < Utf8Char(s)
    ensures IsTail(s[i])
  {
  }

  lemma CharStart(s: seq<byte>)
    requires Utf8Char(s) > 0
    ensures !IsTail(s[0])
    ensures Utf8Char(s[..Utf8Char(s)]) == Utf8Char(s) <= 4
  {
  }

  /** A well-formed string cut where a character starts is well formed; and one starts within any four octets. */
  lemma {:induction false} CutAtStart(s: seq<byte>, n: nat)
    requires IsUtf8(s) && n < |s|
    ensures !IsTail(s[n]) ==> IsUtf8(s[..n])
    ensures BackOff(s, n) + 3 >= n && !IsTail(s[BackOff(s, n)])
    decreases |s|
  {
    var k := Utf8Char(s);
    CharStart(s);
    if n < k {
      if n > 0 {
        CharTails(s, n);
      }
    } else {
      CutAtStart(s[k..], n - k);
      assert s[k..][n - k] == s[n];
      assert s[..n][k..] == s[k..][..n - k];
      if !IsTail(s[n]) {
        CharPrefix(s[..k], s[..n]);
      }
      BackOffShift(s, k, n);
    }
  }

  lemma {:induction false} BackOffShift(s: seq<byte>, k: nat, n: nat)
    requires k <= n < |s| && !IsTail(s[k])
    ensures BackOff(s, n) == k + BackOff(s[k..], n - k)
    decreases n
  {
    if n > k && IsTail(s[n]) {
      BackOffShift(s, k, n - 1);
    }
  }

  /** The base name has no slash, and neither has what the temporary component is made of. */
  lemma ComponentHasNoSlash(path: seq<byte>, pid: pid_t)
    ensures SLASH !in BaseName(path) && SLASH !in TempComponent(BaseName(path), pid)
  {
    hide Suffix, Budget, LastIndexOf, TruncatedLength;
    SuffixIsPlain(pid);
    var base := BaseName(path);
    forall i | 0 <= i < |base|
      ensures base[i] != SLASH
    {
      assert base[i] == path[LastIndexOf(path, SLASH) + 1 + i];
    }
    var c := TempComponent(base, pid);
    var n := TruncatedLength(base, Budget(pid));
    assert forall i :: 0 <= i < |c| ==>
      c[i] == if i == 0 then DOT else if i <= n then base[i - 1] else Suffix(pid)[i - 1 - n];
  }

  lemma SplitAtSlash(dir: seq<byte>, c: seq<byte>)
    requires SLASH !in c && (dir == [] || dir[|dir| - 1] == SLASH)
    ensures Directory(dir + c) == dir && BaseName(dir + c) == c
  {
    if dir == [] {
      assert dir + c == c && LastIndexOf(c, SLASH) == -1;
    } else {
      var d := dir[..|dir| - 1];
      assert dir + c == d + [SLASH] + c;
      LastIndexSplit(d, SLASH, c);
    }
  }

  lemma ComponentIsUtf8(base: seq<byte>, pid: pid_t)
    requires IsUtf8(base)
    ensures IsUtf8(TempComponent(base, pid))
  {
    SuffixIsPlain(pid);
    var n := TruncatedLength(base, Budget(pid));
    if |base| > Budget(pid) {
      CutAtStart(base, Budget(pid));
      CutAtStart(base, n);
    } else {
      assert base[..n] == base;
    }
    AsciiIsUtf8(Suffix(pid), []);
    assert Suffix(pid) + [] == Suffix(pid);
    Utf8Concat(base[..n], Suffix(pid));
    AsciiIsUtf8([DOT], base[..n] + Suffix(pid));
    Regroup([DOT], base[..n], Suffix(pid));
  }

  lemma ComponentLength(base: seq<byte>, pid: pid_t)
    ensures var c := TempComponent(base, pid);
      && c[0] == DOT && |c| <= MAX_FILE_NAME_BYTES
      && (|base| <= Budget(pid) ==> c == [DOT] + base + Suffix(pid))
      && (|base| > Budget(pid) && IsUtf8(base) ==> |c| >= MAX_FILE_NAME_BYTES - 3)
  {
    SuffixIsPlain(pid);
    if |base| <= Budget(pid) {
      assert base[..|base|] == base;
    } else if IsUtf8(base) {
      CutAtStart(base, Budget(pid));
    }
  }

  /** The temporary file sits in the target's directory, under a hidden name every file system accepts, which ends
      with the suffix and keeps all of the target's name, or all but at most three octets of what there is room for. */
  lemma TempNameFits(path: seq<byte>, pid: pid_t)
    ensures Directory(TempDownloadPath(path, pid)) == Directory(path)
    ensures BaseName(TempDownloadPath(path, pid)) == TempComponent(BaseName(path), pid)
    ensures var base, c := BaseName(path), TempComponent(BaseName(path), pid);
      && c[0] == DOT && |c| <= MAX_FILE_NAME_BYTES
      && (IsUtf8(base) ==> IsUtf8(c))
      && (|base| <= Budget(pid) ==> c == [DOT] + base + Suffix(pid))
      && (|base| > Budget(pid) && IsUtf8(base) ==> |c| >= MAX_FILE_NAME_BYTES - 3)
  {
    var base := BaseName(path);
    ComponentHasNoSlash(path, pid);
    SplitAtSlash(Directory(path), TempComponent(base, pid));
    ComponentLength(base, pid);
    if IsUtf8(base) {
      ComponentIsUtf8(base, pid);
    }
  }

  /** For a name with room to spare: a dot, the name, the marker, the process id in decimal digits. */
  lemma TempNameOfShort(dir: seq<byte>, base: seq<byte>, pid: pid_t)
    requires |base| <= 232 && SLASH !in base && (dir == [] || dir[|dir| - 1] == SLASH)
    ensures TempDownloadPath(dir + base, pid) == dir + ([0x2E] + base + (Ascii(".adbwfx.tmp.") + ToBytes(pid)))
    ensures FromBytes(ToBytes(pid)) == pid
  {
    SuffixIsPlain(pid);
    SplitAtSlash(dir, base);
    FromToBytes(pid);
    assert base[..|base|] == base;
  }

  /** Two processes never share a temporary name for the same target. */
  lemma TempNamesOfProcesses(path: seq<byte>, pid: pid_t, other: pid_t)
    requires TempDownloadPath(path, pid) == TempDownloadPath(path, other)
    ensures pid == other
  {
    TempNameFits(path, pid);
    TempNameFits(path, other);
    SuffixEnds(BaseName(path), pid);
    SuffixEnds(BaseName(path), other);
    FromToBytes(pid);
    FromToBytes(other);
  }

  /** What follows the last dot of a temporary name is the process id. */
  lemma SuffixEnds(base: seq<byte>, pid: pid_t)
    ensures var c := TempComponent(base, pid);
      c[LastIndexOf(c, DOT) + 1..] == ToBytes(pid)
  {
    var c := TempComponent(base, pid);
    var front := [DOT] + base[..TruncatedLength(base, Budget(pid))] + TEMP_DOWNLOAD_SUFFIX[..11];
    assert TEMP_DOWNLOAD_SUFFIX == TEMP_DOWNLOAD_SUFFIX[..11] + [DOT];
    DigitsHaveNoDot(pid);
    assert c == front + [DOT] + ToBytes(pid);
    LastIndexSplit(front, DOT, ToBytes(pid));
  }

  lemma DigitsHaveNoDot(pid: pid_t)
    ensures DOT !in ToBytes(pid)
  {
  }

  /** A run of dots. */
  function Dots(n: nat): (r: seq<byte>)
    ensures |r| == n && forall i :: 0 <= i < n ==> r[i] == DOT
  {
    seq(n, _ => DOT)
  }

  /** The one name per process that is its own temporary name: dots, then the suffix. */
  function SelfAlias(pid: pid_t): seq<byte> {
    Dots(Budget(pid) + 1) + Suffix(pid)
  }

  /** The temporary name differs from the target except for that one name. */
  lemma TempNameDiffers(path: seq<byte>, pid: pid_t)
    ensures TempDownloadPath(path, pid) == path <==> BaseName(path) == SelfAlias(pid)
  {
    var base := BaseName(path);
    var c := TempComponent(base, pid);
    assert path == Directory(path) + base;
    assert TempDownloadPath(path, pid) == path <==> c == base by {
      assert TempDownloadPath(path, pid)[|Directory(path)|..] == c;
    }
    SuffixIsPlain(pid);
    if base == SelfAlias(pid) {
      assert base[Budget(pid)] == DOT;
      assert TruncatedLength(base, Budget(pid)) == Budget(pid);
      assert base[..Budget(pid)] == Dots(Budget(pid));
      assert [DOT] + Dots(Budget(pid)) == Dots(Budget(pid) + 1);
    }
    if c == base {
      SelfAliasOnly(base, pid);
    }
  }

  lemma SelfAliasOnly(base: seq<byte>, pid: pid_t)
    requires TempComponent(base, pid) == base
    ensures base == SelfAlias(pid)
  {
    SuffixIsPlain(pid);
    var n := TruncatedLength(base, Budget(pid));
    assert |base| == 1 + n + |Suffix(pid)|;
    var head := [DOT] + base[..n];
    assert base == head + Suffix(pid);
    assert base[n + 1..] == Suffix(pid);
    var b := base[Budget(pid)];
    assert IsTail(b) ==> b !in Suffix(pid);
    assert n == Budget(pid);
    DotsOnly(base, n);
    assert base[..n + 1] == Dots(n + 1);
  }

  lemma {:induction false} DotsOnly(base: seq<byte>, n: nat)
    requires n < |base| && base[0] == DOT && forall i :: 0 <= i < n ==> base[i + 1] == base[i]
    ensures forall i :: 0 <= i <= n ==> base[i] == DOT
  {
    if n > 0 {
      DotsOnly(base, n - 1);
      assert base[n - 1 + 1] == base[n - 1];
    }
  }
}
