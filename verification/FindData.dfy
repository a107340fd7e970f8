/** Rendering directory entries into fixed-size find results, one per call. */
module FindData {
  import opened Bytes
  import opened Utf
  import opened FileTime

  const MAX_PATH: nat := 260
  const FILE_ATTRIBUTE_DIRECTORY: u32 := 16
  const FILE_ATTRIBUTE_UNIX_MODE: u32 := 0x8000_0000

  /** How many units of `w` a buffer that holds `max` of them gets: all that fit, but never half a pair. */
  function CopyLength(w: seq<u16>, max: nat): (n: nat)
    ensures n <= |w| && n <= max
  {
    if |w| <= max then |w|
    else if max > 0 && IsHigh(w[max - 1]) then max - 1
    else max
  }

  /** utf8ToWideBuf: stores a NUL-terminated name of at most `destChars` - 1 units; false if it had to be cut. */
  method Utf8ToWideBuf(src: seq<byte>, dest: array<u16>, destChars: nat) returns (fits: bool)
    requires destChars <= dest.Length
    modifies dest
    ensures fits <==> |Utf8ToUtf16(src)| < destChars
    ensures destChars > 0 ==>
      && var w := Utf8ToUtf16(src); var n := CopyLength(w, destChars - 1);
      && dest[..n] == w[..n] && dest[n] == 0
      && forall i :: n < i < dest.Length ==> dest[i] == old(dest[i])
    ensures destChars == 0 ==> dest[..] == old(dest[..])
  {
    if destChars == 0 {
      return false;
    }
    var wide := Utf8ToWide(src);
    ghost var w := Utf8ToUtf16(src);
    var sourceUnits, maxUnits := |wide| - 1, destChars - 1;
    if sourceUnits <= maxUnits {
      CopyUnits(wide, dest, sourceUnits);
      assert wide[..sourceUnits] == w;
      return true;
    }
    var copyUnits := maxUnits;
    if copyUnits > 0 {
      var last := wide[copyUnits - 1];
      if IsHigh(last) {
        copyUnits := copyUnits - 1;
      }
    }
    CopyUnits(wide, dest, copyUnits);
    assert wide[..copyUnits] == w[..copyUnits];
    return false;
  }

  method CopyUnits(wide: seq<u16>, dest: array<u16>, n: nat)
    requires n <= |wide| && n < dest.Length
    modifies dest
    ensures dest[..n] == wide[..n] && dest[n] == 0
    ensures forall i :: n < i < dest.Length ==> dest[i] == old(dest[i])
  {
    for i := 0 to n
      invariant forall j :: 0 <= j < i ==> dest[j] == wide[j]
      invariant forall j :: i <= j < dest.Length ==> dest[j] == old(dest[j])
    {
      dest[i] := wide[i];
    }
    dest[n] := 0;
  }

  /** Cutting well-formed UTF-16 behind a unit leaves it well formed unless that unit is the first of a pair. */
  lemma {:induction false} CutIsWellFormed(w: seq<u16>, m: nat)
    requires IsUtf16(w) && m <= |w|
    ensures IsUtf16(w[..m]) <==> m == 0 || !IsHigh(w[m - 1])
    decreases |w|
  {
    if m > 0 {
      var n := DecodeUtf16(w).consumed;
      if m >= n {
        CutIsWellFormed(w[n..], m - n);
        assert w[..m][n..] == w[n..][..m - n];
        assert m > n ==> w[n..][m - n - 1] == w[m - 1];
      }
    }
  }

  /** What is stored of a name that does not fit is the longest well-formed piece of it that does. */
  lemma CopyLengthIsLongest(w: seq<u16>, max: nat)
    requires IsUtf16(w)
    ensures IsUtf16(w[..CopyLength(w, max)])
    ensures forall m :: CopyLength(w, max) < m <= max && m <= |w| ==> !IsUtf16(w[..m])
  {
    var n := CopyLength(w, max);
    CutIsWellFormed(w, n);
    if n < max && n < |w| {
      CutIsWellFormed(w, max);
      if n > 0 {
        HighThenLow(w, n);
      }
    } else {
      assert w[..|w|] == w;
    }
  }

  /** In well-formed UTF-16 a unit before a high surrogate is not one itself. */
  lemma {:induction false} HighThenLow(w: seq<u16>, i: nat)
    requires IsUtf16(w) && 0 < i < |w| && IsHigh(w[i])
    ensures !IsHigh(w[i - 1])
    decreases |w|
  {
    var n := DecodeUtf16(w).consumed;
    if i > n {
      HighThenLow(w[n..], i - n);
    }
  }

  datatype FindResult = FindResult(name: seq<byte>, size: u64, mtime: time_t, unixMode: u32, isDir: bool)

  /** The fields of a find result that carry information; the name without its NUL. */
  datatype Win32FindData = Win32FindData(
    fileName: seq<u16>, fileAttributes: u32, reserved0: u32, sizeHigh: u32, sizeLow: u32,
    lastWriteTime: FILETIME, creationTime: FILETIME, lastAccessTime: FILETIME)

  const ZEROED: Win32FindData :=
    Win32FindData([], 0, 0, 0, 0, FILETIME(0, 0), FILETIME(0, 0), FILETIME(0, 0))

  /** The whole name fits a find result. */
  predicate Fits(entry: FindResult) {
    |Utf8ToUtf16(entry.name)| < MAX_PATH
  }

  function Rendered(entry: FindResult): Win32FindData
  {
    var time := TimeToFileTime(entry.mtime);
    Win32FindData(Utf8ToUtf16(entry.name),
                  FILE_ATTRIBUTE_UNIX_MODE as int + if entry.isDir then FILE_ATTRIBUTE_DIRECTORY else 0,
                  entry.unixMode, entry.size / TWO_32, entry.size % TWO_32, time, time, time)
  }

  /** Nothing of an entry is lost in a find result, for names that are UTF-8 and times that are representable. */
  lemma RenderedIsFaithful(e: FindResult, f: FindResult)
    requires IsUtf8(e.name) && IsUtf8(f.name)
    requires Representable(e.mtime) && Representable(f.mtime)
    requires Rendered(e) == Rendered(f)
    ensures e == f
  {
    Utf8RoundTrip(e.name);
    Utf8RoundTrip(f.name);
    TimeToFileTimeInjective(e.mtime, f.mtime);
  }

  /** What is read off a find result: the name, the size from its two halves, the two flags and no others, the mode, and
      the three times, which are one. */
  predicate ReadsAs(data: Win32FindData, entry: FindResult) {
    && data.fileName == Utf8ToUtf16(entry.name)
    && data.sizeHigh * 0x1_0000_0000 + data.sizeLow == entry.size
    && (data.fileAttributes / 16 % 2 == 1 <==> entry.isDir)
    && data.fileAttributes == 0x8000_0000 + data.fileAttributes / 16 % 2 * 16
    && data.reserved0 == entry.unixMode
    && data.creationTime == data.lastAccessTime == data.lastWriteTime
    && (FileTimeToTime(data.lastWriteTime) == entry.mtime <==> Representable(entry.mtime))
  }

  /** Everything an entry says can be read off its find result. */
  lemma RenderedReads(entry: FindResult)
    ensures ReadsAs(Rendered(entry), entry)
  {
    hide TimeToFileTime, FileTimeToTime, Utf8ToUtf16;
    TimeRoundTrip(entry.mtime);
  }

  method FillFindData(entry: FindResult) returns (ok: bool, findData: Win32FindData)
    ensures ok <==> |Utf8ToUtf16(entry.name)| < 260
    ensures ok <==> Fits(entry)
    ensures findData == if ok then Rendered(entry) else ZEROED
    ensures if ok then ReadsAs(findData, entry)
      else findData == Win32FindData([], 0, 0, 0, 0, FILETIME(0, 0), FILETIME(0, 0), FILETIME(0, 0))
  {
    RenderedReads(entry);
    hide ReadsAs, TimeToFileTime;
    var buffer := new u16[MAX_PATH](_ => 0);
    ok := Utf8ToWideBuf(entry.name, buffer, MAX_PATH);
    if !ok {
      return false, ZEROED;
    }
    ghost var w := Utf8ToUtf16(entry.name);
    var wide := Utf8ToWide(entry.name);
    var time := TimeToFileTime(entry.mtime);
    var attributes: int := FILE_ATTRIBUTE_UNIX_MODE;
    if entry.isDir {
      attributes := attributes + FILE_ATTRIBUTE_DIRECTORY;
    }
    findData := Win32FindData(buffer[..|wide| - 1], attributes, entry.unixMode, entry.size / TWO_32, entry.size % TWO_32,
                              time, time, time);
  }

  /** The entries still to be handed out. */
  function Remaining(entries: seq<FindResult>, index: nat): seq<FindResult>
    requires index <= |entries|
    decreases |entries| - index
  {
    if index == |entries| then []
    else (if Fits(entries[index]) then [entries[index]] else []) + Remaining(entries, index + 1)
  }

  /** A listing being handed out. */
  class FindHandle {
    const entries: seq<FindResult>
    var index: nat

    constructor (entries: seq<FindResult>)
      ensures this.entries == entries && index == 0 && Valid()
    {
      this.entries := entries;
      index := 0;
    }

    ghost predicate Valid()
      reads this
    {
      index <= |entries|
    }

    /** Hands out the next entry that fits. Once there is none, there is none ever after. */
    method Advance() returns (found: bool, findData: Win32FindData)
      requires Valid()
      modifies this
      ensures Valid() && index >= old(index)
      ensures found <==> Remaining(entries, old(index)) != []
      ensures found ==>
        && findData == Rendered(Remaining(entries, old(index))[0])
        && Remaining(entries, index) == Remaining(entries, old(index))[1..]
      ensures !found ==> index == |entries|
    {
      while index < |entries|
        invariant old(index) <= index <= |entries|
        invariant Remaining(entries, index) == Remaining(entries, old(index))
      {
        var entry := entries[index];
        index := index + 1;
        var ok, data := FillFindData(entry);
        if ok {
          return true, data;
        }
      }
      return false, ZEROED;
    }

    /** All calls from the first to the one that reports exhaustion: exactly the entries that fit, in order. */
    method Enumerate() returns (all: seq<Win32FindData>)
      requires Valid()
      modifies this
      ensures all == RenderedAll(Remaining(entries, old(index)))
      ensures index == |entries| && Remaining(entries, index) == []
    {
      all := [];
      ghost var total := Remaining(entries, index);
      while true
        invariant Valid()
        invariant RenderedAll(total) == all + RenderedAll(Remaining(entries, index))
        decreases |Remaining(entries, index)|
      {
        ghost var left := Remaining(entries, index);
        var found, data := Advance();
        if !found {
          return;
        }
        assert RenderedAll(left) == [data] + RenderedAll(Remaining(entries, index));
        all := all + [data];
      }
    }
  }

  function RenderedAll(es: seq<FindResult>): seq<Win32FindData>
  {
    if es == [] then [] else [Rendered(es[0])] + RenderedAll(es[1..])
  }

  /** How many of the entries from `index` up to `i` fit. */
  function FittingBefore(entries: seq<FindResult>, index: nat, i: nat): nat
    requires index <= i <= |entries|
    decreases i - index
  {
    if i == index then 0 else (if Fits(entries[index]) then 1 else 0) + FittingBefore(entries, index + 1, i)
  }

  lemma {:induction false} RemainingLength(entries: seq<FindResult>, index: nat)
    requires index <= |entries|
    ensures |Remaining(entries, index)| == FittingBefore(entries, index, |entries|)
    decreases |entries| - index
  {
    if index < |entries| {
      RemainingLength(entries, index + 1);
    }
  }

  /** An entry that fits is handed out right after the fitting ones that precede it; with the length just stated,
      nothing else is handed out and nothing twice. */
  lemma {:induction false} RemainingIsOrdered(entries: seq<FindResult>, index: nat, i: nat)
    requires index <= i < |entries| && Fits(entries[i])
    ensures FittingBefore(entries, index, i) < |Remaining(entries, index)|
    ensures Remaining(entries, index)[FittingBefore(entries, index, i)] == entries[i]
    decreases |entries| - index
  {
    if index < i {
      RemainingIsOrdered(entries, index + 1, i);
      RemainingStep(entries, index, i, FittingBefore(entries, index + 1, i));
    } else {
      assert Remaining(entries, i) == [entries[i]] + Remaining(entries, i + 1);
    }
  }

  lemma RemainingStep(entries: seq<FindResult>, index: nat, i: nat, k: nat)
    requires index < i < |entries| && k == FittingBefore(entries, index + 1, i) < |Remaining(entries, index + 1)|
    ensures FittingBefore(entries, index, i) < |Remaining(entries, index)|
    ensures Remaining(entries, index)[FittingBefore(entries, index, i)] == Remaining(entries, index + 1)[k]
  {
    IndexInSum(if Fits(entries[index]) then [entries[index]] else [], Remaining(entries, index + 1), k);
  }

  lemma IndexInSum<T>(a: seq<T>, b: seq<T>, k: nat)
    requires k < |b|
    ensures (a + b)[|a| + k] == b[k]
  {
  }
}
