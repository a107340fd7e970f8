/** The text answer of host:devices-l. */
module Devices {
  import opened Bytes
  import opened Paths

  datatype DeviceInfo = DeviceInfo(serial: string, state: string, model: string)

  const HEADER_LINE := "List of devices attached"
  const MODEL_PREFIX := "model:"

  predicate IsTrailing(c: char) {
    c == ' ' || c == '\t' || c == '\r' || c == '\n'
  }

  // ----- lines and fields -----

  function TrimmedLength(s: string): (n: nat)
    ensures n <= |s|
    ensures n > 0 ==> !IsTrailing(s[n - 1])
    ensures forall i :: n <= i < |s| ==> IsTrailing(s[i])
    decreases |s|
  {
    if s != "" && IsTrailing(s[|s| - 1]) then TrimmedLength(s[..|s| - 1]) else |s|
  }

  function Trimmed(s: string): string {
    s[..TrimmedLength(s)]
  }

  method TrimTrailingWhitespace(s: string) returns (r: string)
    ensures r == Trimmed(s)
  {
    var end := |s|;
    while end > 0 && IsTrailing(s[end - 1])
      invariant 0 <= end <= |s| && TrimmedLength(s[..end]) == TrimmedLength(s)
    {
      assert s[..end][..end - 1] == s[..end - 1];
      end := end - 1;
    }
    r := s[..end];
  }

  function SkipBlanks(line: string, i: nat): (j: nat)
    requires i <= |line|
    ensures i <= j <= |line| && (j < |line| ==> !IsBlank(line[j]))
    ensures forall k :: i <= k < j ==> IsBlank(line[k])
    decreases |line| - i
  {
    if i < |line| && IsBlank(line[i]) then SkipBlanks(line, i + 1) else i
  }

  function SkipField(line: string, i: nat): (j: nat)
    requires i <= |line|
    ensures i <= j <= |line| && (j < |line| ==> IsBlank(line[j]))
    ensures forall k :: i <= k < j ==> !IsBlank(line[k])
    decreases |line| - i
  {
    if i < |line| && !IsBlank(line[i]) then SkipField(line, i + 1) else i
  }

  /** The runs of non-blank characters from `i` on. */
  function Fields(line: string, i: nat): (r: seq<string>)
    requires i <= |line|
    ensures forall k :: 0 <= k < |r| ==> IsField(r[k])
    decreases |line| - i
  {
    if i == |line| then []
    else
      var start := SkipBlanks(line, i);
      var end := SkipField(line, start);
      if end > start then
        assert IsField(line[start..end]);
        [line[start..end]] + Fields(line, end)
      else []
  }

  /** splitFields, with its three loops. */
  method SplitFields(line: string) returns (fields: seq<string>)
    ensures fields == Fields(line, 0)
  {
    fields := [];
    var i := 0;
    while i < |line|
      invariant i <= |line|
      invariant Fields(line, 0) == fields + Fields(line, i)
    {
      ghost var from := i;
      while i < |line| && IsBlank(line[i])
        invariant from <= i <= |line| && SkipBlanks(line, i) == SkipBlanks(line, from)
      {
        i := i + 1;
      }
      var start := i;
      while i < |line| && !IsBlank(line[i])
        invariant start <= i <= |line| && SkipField(line, i) == SkipField(line, start)
        invariant i == start ==> start == SkipBlanks(line, from)
      {
        i := i + 1;
      }
      if i > start {
        fields := fields + [line[start..i]];
      }
    }
  }

  // ----- devices -----

  function IsModelField(field: string): bool {
    MODEL_PREFIX <= field
  }

  /** The value of the last model field from `i` on, or `model` if there is none. */
  function ModelOf(fields: seq<string>, i: nat, model: string): string
    requires i <= |fields|
    decreases |fields| - i
  {
    if i == |fields| then model
    else ModelOf(fields, i + 1, if IsModelField(fields[i]) then fields[i][|MODEL_PREFIX|..] else model)
  }

  /** The devices of one line: one, or none. */
  function DevicesOfLine(rawLine: string): seq<DeviceInfo> {
    var line := Trimmed(rawLine);
    if line == "" || line == HEADER_LINE then []
    else
      var fields := Fields(line, 0);
      if |fields| >= 2 then [DeviceInfo(fields[0], fields[1], ModelOf(fields, 2, ""))] else []
  }

  /** The lines of a text, without their newlines; the last one may be empty. */
  function LinesOf(text: string): (lines: seq<string>)
    decreases |text|
  {
    var lineEnd := IndexOf(text, '\n', 0);
    if lineEnd < 0 then [text] else [text[..lineEnd]] + LinesOf(text[lineEnd + 1..])
  }

  function DevicesOf(text: string): seq<DeviceInfo> {
    FlatMap(DevicesOfLine, LinesOf(text))
  }

  method ParseLine(rawLine: string) returns (devices: seq<DeviceInfo>)
    ensures devices == DevicesOfLine(rawLine)
  {
    var line := TrimTrailingWhitespace(rawLine);
    if line == "" || line == HEADER_LINE {
      return [];
    }
    var fields := SplitFields(line);
    if |fields| < 2 {
      return [];
    }
    var model := "";
    for i := 2 to |fields|
      invariant ModelOf(fields, i, model) == ModelOf(fields, 2, "")
    {
      if IsModelField(fields[i]) {
        model := fields[i][|MODEL_PREFIX|..];
      }
    }
    return [DeviceInfo(fields[0], fields[1], model)];
  }

  lemma LinesStep(text: string)
    ensures var e := IndexOf(text, '\n', 0);
      LinesOf(text) == if e < 0 then [text] else [text[..e]] + LinesOf(text[e + 1..])
  {
  }

  /** The next line of a text, seen from its start and from the start of that line. */
  lemma NextLine(text: string, lineStart: nat)
    requires lineStart <= |text|
    ensures var lineEnd := IndexOf(text, '\n', lineStart);
      if lineEnd < 0 then LinesOf(text[lineStart..]) == [text[lineStart..]]
      else LinesOf(text[lineStart..]) == [text[lineStart..lineEnd]] + LinesOf(text[lineEnd + 1..])
  {
    hide IndexOf, LinesOf;
    var rest := text[lineStart..];
    LinesStep(rest);
    var lineEnd, e := IndexOf(text, '\n', lineStart), IndexOf(rest, '\n', 0);
    assert forall j :: 0 <= j < |rest| ==> rest[j] == text[lineStart + j];
    if lineEnd < 0 {
      assert e < 0;
    } else {
      assert rest[lineEnd - lineStart] == '\n';
      assert e == lineEnd - lineStart;
      assert rest[..e] == text[lineStart..lineEnd] && rest[e + 1..] == text[lineEnd + 1..];
    }
  }

  method ParseDevicesL(text: string) returns (devices: seq<DeviceInfo>)
    ensures devices == DevicesOf(text)
  {
    hide IndexOf, LinesOf, DevicesOfLine;
    devices := [];
    ghost var all, lines, left := LinesOf(text), [], LinesOf(text);
    var lineStart := 0;
    assert text[0..] == text;
    while lineStart <= |text|
      invariant 0 <= lineStart <= |text|
      invariant left == LinesOf(text[lineStart..])
      invariant all == lines + left && devices == FlatMap(DevicesOfLine, lines)
      decreases |text| - lineStart
    {
      var lineEnd := IndexOf(text, '\n', lineStart);
      var rawLine := if lineEnd < 0 then text[lineStart..] else text[lineStart..lineEnd];
      NextLine(text, lineStart);
      var more := ParseLine(rawLine);
      FlatMapSnoc(DevicesOfLine, lines, rawLine);
      devices := devices + more;
      if lineEnd < 0 {
        return;
      }
      lineStart := lineEnd + 1;
      left := LinesOf(text[lineStart..]);
      MoveOne(lines, rawLine, left);
      lines := lines + [rawLine];
    }
  }

  // ----- what a device list yields -----

  /** Every part of a device is free of blanks; serial and state are never empty. */
  predicate IsDeviceInfo(d: DeviceInfo) {
    IsDevice(d.model, d.serial) && IsField(d.state)
  }

  lemma {:induction false} ModelIsField(fields: seq<string>, i: nat, model: string)
    requires i <= |fields| && (model == "" || IsField(model)) && forall k :: 0 <= k < |fields| ==> IsField(fields[k])
    ensures ModelOf(fields, i, model) == "" || IsField(ModelOf(fields, i, model))
    decreases |fields| - i
  {
    if i < |fields| {
      var f := fields[i];
      assert IsField(f);
      if IsModelField(f) {
        assert forall c :: c in f[|MODEL_PREFIX|..] ==> c in f;
      }
      ModelIsField(fields, i + 1, if IsModelField(f) then f[|MODEL_PREFIX|..] else model);
    }
  }

  lemma {:induction false} DevicesAreWellFormed(lines: seq<string>)
    ensures forall k :: 0 <= k < |FlatMap(DevicesOfLine, lines)| ==> IsDeviceInfo(FlatMap(DevicesOfLine, lines)[k])
  {
    if lines != [] {
      DevicesAreWellFormed(lines[..|lines| - 1]);
      LineIsWellFormed(lines[|lines| - 1]);
    }
  }

  lemma LineIsWellFormed(rawLine: string)
    ensures forall k :: 0 <= k < |DevicesOfLine(rawLine)| ==> IsDeviceInfo(DevicesOfLine(rawLine)[k])
  {
    var fields := Fields(Trimmed(rawLine), 0);
    if |fields| >= 2 {
      ModelIsField(fields, 2, "");
    }
  }

  /** The naming chain for every device of every device list: the name shown for it leads back to it, with any path
      below, exactly when the name has no slash. */
  lemma ListedDeviceIsReachable(text: string, k: nat, rest: string)
    requires k < |DevicesOf(text)| && IsRest(rest)
    ensures var d := DevicesOf(text)[k]; var name := DisplayName(d.model, d.serial);
      && SerialFromDisplayName(name) == d.serial
      && (ParseWfxPath("/" + name + rest) == RemotePath(false, d.serial, DevicePath(rest)) <==> '/' !in name)
  {
    DevicesAreWellFormed(LinesOf(text));
    var d := DevicesOf(text)[k];
    assert IsDeviceInfo(d);
    SerialOfDisplayName(d.model, d.serial);
    NamingChain(d.model, d.serial, rest);
  }

  // ----- a device list written out and read back -----

  /** No character that separates or ends lines or fields. */
  predicate IsWord(s: string) {
    s != "" && forall i :: 0 <= i < |s| ==> !IsTrailing(s[i])
  }

  predicate IsPrintable(d: DeviceInfo) {
    IsWord(d.serial) && IsWord(d.state) && (d.model == "" || IsWord(d.model))
  }

  /** A device as the server prints it: serial, tab, state, and the model if it is known. */
  function PrintDevice(d: DeviceInfo): string {
    d.serial + "\t" + d.state + if d.model == "" then "" else " " + (MODEL_PREFIX + d.model)
  }

  function PrintDevices(ds: seq<DeviceInfo>): string {
    if ds == [] then "" else PrintDevice(ds[0]) + "\n" + PrintDevices(ds[1..])
  }

  predicate WordAt(line: string, i: nat, w: string) {
    IsWord(w) && i + |w| <= |line| && forall k :: 0 <= k < |w| ==> line[i + k] == w[k]
  }

  predicate EndsAt(line: string, i: nat) {
    i == |line| || (i < |line| && IsBlank(line[i]))
  }

  lemma RunOfWord(line: string, i: nat, w: string)
    requires WordAt(line, i, w) && EndsAt(line, i + |w|)
    ensures SkipBlanks(line, i) == i && SkipField(line, i) == i + |w| && line[i..i + |w|] == w
  {
    assert forall k :: i <= k < i + |w| ==> line[k] == w[k - i] && !IsTrailing(line[k]);
  }

  /** A word at `i` up to a blank or the end of the line is one field. */
  lemma FieldAt(line: string, i: nat, w: string)
    requires WordAt(line, i, w) && EndsAt(line, i + |w|)
    ensures Fields(line, i) == [w] + Fields(line, i + |w|)
  {
    RunOfWord(line, i, w);
    hide SkipBlanks, SkipField, IsField, EndsAt;
  }

  lemma FieldAfterBlank(line: string, i: nat, w: string)
    requires i < |line| && IsBlank(line[i]) && WordAt(line, i + 1, w) && EndsAt(line, i + 1 + |w|)
    ensures Fields(line, i) == [w] + Fields(line, i + 1 + |w|)
  {
    FieldAt(line, i + 1, w);
    assert !IsTrailing(w[0]) && line[i + 1 + 0] == w[0];
    assert SkipBlanks(line, i + 1) == i + 1;
    assert SkipBlanks(line, i) == i + 1;
  }

  lemma ModelWord(model: string)
    requires IsWord(model)
    ensures IsWord(MODEL_PREFIX + model) && MODEL_PREFIX <= MODEL_PREFIX + model
    ensures (MODEL_PREFIX + model)[|MODEL_PREFIX|..] == model
  {
  }

  /** Where the parts of a printed device are. */
  lemma Parts(d: DeviceInfo)
    requires IsPrintable(d)
    ensures var line, a, b, m := PrintDevice(d), |d.serial|, |d.serial| + 1 + |d.state|, MODEL_PREFIX + d.model;
      && WordAt(line, 0, d.serial) && EndsAt(line, a) && a < |line| && WordAt(line, a + 1, d.state) && EndsAt(line, b)
      && (if d.model == "" then b == |line| else b < |line| && WordAt(line, b + 1, m) && b + 1 + |m| == |line|)
  {
    if d.model != "" {
      ModelWord(d.model);
    }
  }

  lemma PrintedFields(d: DeviceInfo)
    requires IsPrintable(d)
    ensures Fields(PrintDevice(d), 0) == [d.serial, d.state] + if d.model == "" then [] else [MODEL_PREFIX + d.model]
  {
    hide Fields, WordAt, EndsAt, IsWord, MODEL_PREFIX, PrintDevice;
    var line, a, b := PrintDevice(d), |d.serial|, |d.serial| + 1 + |d.state|;
    Parts(d);
    NoFields(line);
    EndIsBlank(line, a);
    FieldAt(line, 0, d.serial);
    FieldAfterBlank(line, a, d.state);
    if d.model != "" {
      EndIsBlank(line, b);
      EndIsEnd(line);
      FieldAfterBlank(line, b, MODEL_PREFIX + d.model);
    }
  }

  lemma EndIsBlank(line: string, i: nat)
    requires i < |line| && EndsAt(line, i)
    ensures IsBlank(line[i])
  {
  }

  lemma EndIsEnd(line: string)
    ensures EndsAt(line, |line|)
  {
  }

  lemma NoFields(line: string)
    ensures Fields(line, |line|) == []
  {
  }

  lemma PrintedLine(d: DeviceInfo)
    requires IsPrintable(d)
    ensures '\n' !in PrintDevice(d) && Trimmed(PrintDevice(d)) == PrintDevice(d) && PrintDevice(d) != HEADER_LINE
  {
    hide Fields;
    var line := PrintDevice(d);
    if d.model == "" {
      LastIsWord(line, d.state);
    } else {
      LastIsWord(line, d.model);
    }
    HeaderHasNoTab();
    assert line[|d.serial|] == '\t';
    NoNewline(d);
  }

  lemma LastIsWord(line: string, w: string)
    requires IsWord(w) && |w| <= |line| && line[|line| - |w|..] == w
    ensures Trimmed(line) == line
  {
    assert line[|line| - 1] == w[|w| - 1];
  }

  lemma HeaderHasNoTab()
    ensures '\t' !in HEADER_LINE
  {
  }

  lemma NoNewline(d: DeviceInfo)
    requires IsPrintable(d)
    ensures '\n' !in PrintDevice(d)
  {
    assert '\n' !in d.serial && '\n' !in d.state && '\n' !in d.model;
  }

  lemma ModelOfPrinted(d: DeviceInfo)
    requires IsPrintable(d)
    ensures ModelOf([d.serial, d.state] + if d.model == "" then [] else [MODEL_PREFIX + d.model], 2, "") == d.model
  {
    if d.model != "" {
      ModelWord(d.model);
      var fields := [d.serial, d.state] + [MODEL_PREFIX + d.model];
      assert fields[2] == MODEL_PREFIX + d.model;
      assert ModelOf(fields, 3, d.model) == d.model;
    }
  }

  /** One printed line reads back as its device. */
  lemma ReadOfPrintedLine(d: DeviceInfo)
    requires IsPrintable(d)
    ensures DevicesOfLine(PrintDevice(d)) == [d]
  {
    PrintedFields(d);
    PrintedLine(d);
    ModelOfPrinted(d);
  }

  function PrintedLines(ds: seq<DeviceInfo>): seq<string> {
    if ds == [] then [""] else [PrintDevice(ds[0])] + PrintedLines(ds[1..])
  }

  lemma FirstLine(line: string, rest: string)
    requires '\n' !in line
    ensures LinesOf(line + ("\n" + rest)) == [line] + LinesOf(rest)
  {
    IndexSplit(line, '\n', rest);
    assert line + ("\n" + rest) == line + ['\n'] + rest;
  }

  lemma {:induction false} LinesOfPrinted(ds: seq<DeviceInfo>)
    requires forall k :: 0 <= k < |ds| ==> IsPrintable(ds[k])
    ensures LinesOf(PrintDevices(ds)) == PrintedLines(ds)
  {
    hide PrintDevice, IsPrintable, Trimmed;
    if ds != [] {
      assert IsPrintable(ds[0]);
      PrintedLine(ds[0]);
      LinesOfPrinted(ds[1..]);
      FirstLine(PrintDevice(ds[0]), PrintDevices(ds[1..]));
      assert PrintDevices(ds) == PrintDevice(ds[0]) + ("\n" + PrintDevices(ds[1..]));
    }
  }

  lemma {:induction false} DevicesOfPrinted(ds: seq<DeviceInfo>)
    requires forall k :: 0 <= k < |ds| ==> IsPrintable(ds[k])
    ensures FlatMap(DevicesOfLine, PrintedLines(ds)) == ds
  {
    if ds == [] {
      FlatMapSnoc(DevicesOfLine, [], "");
      assert [] + [""] == [""];
    } else {
      assert IsPrintable(ds[0]);
      DevicesOfPrinted(ds[1..]);
      FlatMapConcat(DevicesOfLine, [PrintDevice(ds[0])], PrintedLines(ds[1..]));
      FlatMapSnoc(DevicesOfLine, [], PrintDevice(ds[0]));
      assert [] + [PrintDevice(ds[0])] == [PrintDevice(ds[0])];
      ReadOfPrintedLine(ds[0]);
    }
  }

  /** A printed device list reads back as exactly its devices, in order. */
  lemma ReadOfPrintedDevices(ds: seq<DeviceInfo>)
    requires forall k :: 0 <= k < |ds| ==> IsPrintable(ds[k])
    ensures DevicesOf(PrintDevices(ds)) == ds
  {
    LinesOfPrinted(ds);
    DevicesOfPrinted(ds);
  }

  // ----- what is tolerated -----

  predicate AreBlanks(s: string) {
    forall i :: 0 <= i < |s| ==> IsBlank(s[i])
  }

  /** Words after runs of blanks; only the first run may be empty. */
  predicate AreSpaced(gaps: seq<string>, words: seq<string>) {
    && |gaps| == |words|
    && forall i :: 0 <= i < |words| ==> IsWord(words[i]) && AreBlanks(gaps[i]) && (i > 0 ==> gaps[i] != "")
  }

  function Spaced(gaps: seq<string>, words: seq<string>): string
    requires |gaps| == |words|
  {
    if words == [] then "" else gaps[0] + words[0] + Spaced(gaps[1..], words[1..])
  }

  lemma FieldAfterGap(line: string, i: nat, gap: string, w: string)
    requires i + |gap| <= |line| && line[i..i + |gap|] == gap && AreBlanks(gap)
    requires WordAt(line, i + |gap|, w) && EndsAt(line, i + |gap| + |w|)
    ensures Fields(line, i) == [w] + Fields(line, i + |gap| + |w|)
  {
    var start := i + |gap|;
    FieldAt(line, start, w);
    assert forall k :: 0 <= k < |gap| ==> line[i + k] == gap[k];
    assert line[start + 0] == w[0] && !IsTrailing(w[0]);
    assert SkipBlanks(line, start) == start;
    assert SkipBlanks(line, i) == start;
  }

  /** Where a gap and a word are in a line. */
  lemma PartsOf(before: string, gap: string, w: string, more: string)
    requires IsWord(w)
    ensures var line, start := before + (gap + w + more), |before| + |gap|;
      && line[|before|..start] == gap && WordAt(line, start, w)
      && (more == "" ==> start + |w| == |line|) && (more != "" ==> start + |w| < |line| && line[start + |w|] == more[0])
      && line == (before + gap + w) + more
  {
  }

  lemma StartsWithBlank(gaps: seq<string>, words: seq<string>)
    requires AreSpaced(gaps, words) && words != [] && gaps[0] != ""
    ensures Spaced(gaps, words) != "" && IsBlank(Spaced(gaps, words)[0])
  {
    assert AreBlanks(gaps[0]);
  }

  /** The fields of a line from where such words begin are these words. */
  lemma {:induction false} FieldsOfSpaced(before: string, gaps: seq<string>, words: seq<string>)
    requires AreSpaced(gaps, words)
    ensures Fields(before + Spaced(gaps, words), |before|) == words
    decreases |words|
  {
    if words == [] {
      assert before + Spaced(gaps, words) == before;
      NoFields(before);
    } else {
      hide AreSpaced, Fields;
      MoreIsSpaced(gaps, words);
      FieldsOfSpaced(before + gaps[0] + words[0], gaps[1..], words[1..]);
      FirstField(before, gaps[0], words[0], Spaced(gaps[1..], words[1..]));
      assert words == [words[0]] + words[1..];
    }
  }

  lemma FirstField(before: string, gap: string, w: string, more: string)
    requires IsWord(w) && AreBlanks(gap) && (more != "" ==> IsBlank(more[0]))
    ensures Fields(before + (gap + w + more), |before|) == [w] + Fields((before + gap + w) + more, |before + gap + w|)
  {
    hide Fields, IsWord, AreBlanks;
    PartsOf(before, gap, w, more);
    FieldAfterGap(before + (gap + w + more), |before|, gap, w);
  }

  lemma MoreIsSpaced(gaps: seq<string>, words: seq<string>)
    requires AreSpaced(gaps, words) && words != []
    ensures IsWord(words[0]) && AreBlanks(gaps[0]) && AreSpaced(gaps[1..], words[1..])
    ensures var more := Spaced(gaps[1..], words[1..]); more != "" ==> IsBlank(more[0])
  {
    hide IsWord;
    if |words| > 1 {
      StartsWithBlank(gaps[1..], words[1..]);
    }
  }

  lemma {:induction false} SpacedEndsInWord(gaps: seq<string>, words: seq<string>)
    requires AreSpaced(gaps, words) && words != []
    ensures var line := Spaced(gaps, words); line != "" && !IsTrailing(line[|line| - 1])
  {
    if |words| == 1 {
      assert Spaced(gaps[1..], words[1..]) == "";
    } else {
      assert AreSpaced(gaps[1..], words[1..]);
      SpacedEndsInWord(gaps[1..], words[1..]);
    }
  }

  lemma TrimmedOf(line: string, tail: string)
    requires line == "" || !IsTrailing(line[|line| - 1])
    requires forall i :: 0 <= i < |tail| ==> IsTrailing(tail[i])
    ensures Trimmed(line + tail) == line
  {
    var s := line + tail;
    var n := TrimmedLength(s);
    assert forall i :: |line| <= i < |s| ==> s[i] == tail[i - |line|] && IsTrailing(s[i]);
    if line != "" {
      assert s[|line| - 1] == line[|line| - 1];
    }
    assert n == |line|;
  }

  /** A line may be indented, separated by any runs of blanks, and end in blanks and a carriage return: its first two words
      are a device's serial number and state. A line of fewer words yields nothing, and neither does the heading. */
  lemma LineIsRead(gaps: seq<string>, words: seq<string>, tail: string)
    requires AreSpaced(gaps, words) && forall i :: 0 <= i < |tail| ==> tail[i] in " \t\r\n"
    ensures DevicesOfLine(Spaced(gaps, words) + tail) ==
      if |words| < 2 || Spaced(gaps, words) == "List of devices attached" then []
      else [DeviceInfo(words[0], words[1], ModelOf(words, 2, ""))]
  {
    hide Fields, ModelOf, IsWord, TrimmedLength;
    var line := Spaced(gaps, words);
    if words != [] {
      SpacedEndsInWord(gaps, words);
    }
    TrimmedOf(line, tail);
    assert "" + line == line;
    FieldsOfSpaced("", gaps, words);
  }

  /** The model is what the last of the further words with that key says. */
  lemma {:induction false} ModelIsLast(fields: seq<string>, i: nat, model: string, k: nat)
    requires i <= k < |fields| && "model:" <= fields[k]
    requires forall j :: k < j < |fields| ==> !("model:" <= fields[j])
    ensures ModelOf(fields, i, model) == fields[k][6..]
    decreases |fields| - i
  {
    if i < k {
      ModelIsLast(fields, i + 1, if IsModelField(fields[i]) then fields[i][|MODEL_PREFIX|..] else model, k);
    } else {
      NoModel(fields, k + 1, fields[k][6..]);
    }
  }

  lemma {:induction false} NoModel(fields: seq<string>, i: nat, model: string)
    requires i <= |fields| && forall j :: i <= j < |fields| ==> !("model:" <= fields[j])
    ensures ModelOf(fields, i, model) == model
    decreases |fields| - i
  {
    if i < |fields| {
      NoModel(fields, i + 1, model);
    }
  }

  /** The devices of a text are those of its lines, one after another. */
  lemma TextIsRead(line: string, rest: string)
    requires '\n' !in line
    ensures DevicesOf(line) == DevicesOfLine(line)
    ensures DevicesOf(line + ("\n" + rest)) == DevicesOfLine(line) + DevicesOf(rest)
  {
    hide DevicesOfLine;
    FirstLine(line, rest);
    assert LinesOf(line) == [line];
    FlatMapConcat(DevicesOfLine, [line], LinesOf(rest));
    FlatMapSnoc(DevicesOfLine, [], line);
    assert [] + [line] == [line];
  }
}
