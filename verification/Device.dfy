/** The device's file tree, and what the shell commands the program sends do to it. */
module Device {
  import opened Bytes
  import opened Paths
  import opened Cache
  import opened Optional
  import Calendar
  import Decimal
  import Shell

  datatype Node =
    | File(data: seq<byte>, mode: int, mtime: int)
    | Dir(mode: int, mtime: int)

  /** Keyed by on-device absolute path, each in its one canonical spelling. */
  type Tree = map<string, Node>

  /** One component of a path. */
  predicate IsName(leaf: string) {
    leaf != "" && leaf != "." && leaf != ".."
  }

  /** The one spelling of a path that the tree knows: names after single slashes, no trailing slash, no dots. */
  predicate Canonical(p: string)
    decreases |p|
  {
    var i := LastIndexOf(p, '/');
    p == "/" || (i >= 0 && IsName(p[i + 1..]) && (i == 0 || (p[..i] != "/" && Canonical(p[..i]))))
  }

  /** The place any spelling of a path leads to. */
  function Resolve(p: string): string
    decreases |p|
  {
    if p == "" then "/"
    else
      var i := LastIndexOf(p, '/');
      var dir, leaf := if i < 0 then "/" else Resolve(p[..i]), p[i + 1..];
      if leaf == "" || leaf == "." then dir else if leaf == ".." then ParentWfxDir(dir) else JoinWfxPath(dir, leaf)
  }

  predicate HasDir(t: Tree, p: string) {
    p in t && t[p].Dir?
  }

  predicate HasFile(t: Tree, p: string) {
    p in t && t[p].File?
  }

  /** Everything a slash of the path follows is a directory - what precedes a trailing slash included. */
  predicate Walkable(t: Tree, p: string) {
    forall i :: 0 <= i < |p| && p[i] == '/' ==> HasDir(t, Resolve(p[..i]))
  }

  /** The last component is "." or "..". */
  predicate EndsInDots(p: string) {
    p[LastIndexOf(p, '/') + 1..] == "." || p[LastIndexOf(p, '/') + 1..] == ".."
  }

  function WithoutSlashes(p: string): string
    decreases |p|
  {
    if p != "" && p[|p| - 1] == '/' then WithoutSlashes(p[..|p| - 1]) else p
  }

  /** `q` is `p` or lies under it. */
  predicate Beneath(p: string, q: string) {
    p == "/" || Covers(p, q)
  }

  function BaseOf(p: string): string {
    p[LastIndexOf(p, '/') + 1..]
  }

  // ----- commands -----

  datatype Command =
    | Rm(path: string)                   // rm -f
    | RmTree(path: string)               // rm -rf
    | Mkdir(path: string)                // mkdir -p
    | Mv(from: string, to: string)
    | Cp(from: string, to: string)
    | Touch(path: string, mtime: int)    // touch -c, by epoch second or by UTC date

  /** What a command's words ask for, if it is one of the program's. */
  function Interpret(words: seq<string>): Option<Command> {
    if |words| == 3 && words[0] == "rm" && words[1] == "-f" then Some(Rm(words[2]))
    else if |words| == 3 && words[0] == "rm" && words[1] == "-rf" then Some(RmTree(words[2]))
    else if |words| == 3 && words[0] == "mkdir" && words[1] == "-p" then Some(Mkdir(words[2]))
    else if |words| == 3 && words[0] == "mv" then Some(Mv(words[1], words[2]))
    else if |words| == 3 && words[0] == "cp" then Some(Cp(words[1], words[2]))
    else if |words| == 5 && words[0] == "touch" && words[1] == "-c" && words[2] == "-d" then
      if words[3] != "" && words[3][0] == '@' && Decimal.IsNumberText(words[3][1..])
      then Some(Touch(words[4], Decimal.FromText(words[3][1..]))) else None
    else if |words| == 6 && words[0] == "TZ=UTC" && words[1] == "touch" && words[2] == "-c" && words[3] == "-t" then
      match Calendar.ReadTouchT(words[4])
      case Some(t) => Some(Touch(words[5], t))
      case None => None
    else None
  }

  /** What a command line asks for: its words, as the shell splits them, interpreted. */
  function Meaning(commandLine: string): Option<Command> {
    match Shell.Lex(commandLine)
    case Some(words) => Interpret(words)
    case None => None
  }

  /** mkdir -p: the directory and every missing one above it. */
  function MakeDirs(t: Tree, p: string, mode: int, now: int): Tree
    decreases |p|
  {
    if p in t then t
    else
      var parent := ParentWfxDir(p);
      var t1 := if |parent| < |p| then MakeDirs(t, parent, mode, now) else t;
      t1[p := Dir(mode, now)]
  }

  /** Where mv and cp put things: inside a target that is a directory, else at the target. */
  function Destination(t: Tree, from: string, to: string): string {
    if HasDir(t, to) then JoinWfxPath(to, BaseOf(from)) else to
  }

  /** Where what lies at or under `from` lies when it is moved to `to`. */
  function GraftKeys(t: Tree, from: string, to: string): set<string> {
    set q | q in t && Covers(from, q) :: to + q[|from|..]
  }

  lemma GraftOrigin(t: Tree, from: string, to: string, q: string)
    requires q in GraftKeys(t, from, to)
    ensures |q| >= |to| && from + q[|to|..] in t && Covers(from, from + q[|to|..]) && Covers(to, q)
  {
    var r :| r in t && Covers(from, r) && q == to + r[|from|..];
    assert q[|to|..] == r[|from|..];
    assert from + r[|from|..] == r;
    if r != from {
      assert q[|to|] == r[|from|] == '/';
      assert to + "/" <= q;
    }
  }

  function Graft(t: Tree, from: string, to: string): Tree {
    map q | q in GraftKeys(t, from, to) :: (GraftOrigin(t, from, to, q); t[from + q[|to|..]])
  }

  /** What lies at or under `from` now lies at or under `to`; whatever was there is gone. */
  function MoveTree(t: Tree, from: string, to: string): Tree {
    Without(Without(t, from), to) + Graft(t, from, to)
  }

  /** Carries out a command whose paths are canonical: the tree afterwards, or nothing if it complains, which it does
      without effect. New files and directories get a mode and a date of the device's choosing. */
  function Carry(c: Command, t: Tree, mode: int, now: int): Option<Tree> {
    match c
    case Rm(p) => if HasDir(t, p) then None else Some(t - {p})
    case RmTree(p) => if p == "/" then None else Some(Without(t, p))
    case Mkdir(p) => if exists q :: q in t && t[q].File? && Covers(q, p) then None else Some(MakeDirs(t, p, mode, now))
    case Mv(from, to) =>
      var target := Destination(t, from, to);
      if from !in t || Beneath(from, target) || !HasDir(t, ParentWfxDir(target)) then None
      else if target in t && (t[target].Dir? != t[from].Dir? || exists q :: q in t && target + "/" <= q) then None
      else Some(MoveTree(t, from, target))
    case Cp(from, to) =>
      var target := Destination(t, from, to);
      if !HasFile(t, from) || HasDir(t, target) || from == target || !HasDir(t, ParentWfxDir(target)) then None
      else Some(t[target := File(t[from].data, mode, now)])
    case Touch(p, mtime) =>
      if p !in t then Some(t) else Some(t[p := t[p].(mtime := mtime)])
  }

  /** The same command on the places its paths lead to. */
  function Located(c: Command): Command {
    match c
    case Rm(p) => Rm(Resolve(p))
    case RmTree(p) => RmTree(Resolve(p))
    case Mkdir(p) => Mkdir(Resolve(p))
    case Mv(from, to) => Mv(Resolve(from), Resolve(to))
    case Cp(from, to) => Cp(Resolve(from), Resolve(to))
    case Touch(p, mtime) => Touch(Resolve(p), mtime)
  }

  /** A path cannot be followed, or may not be named this way. Only a directory may be moved to a name with a trailing
      slash that is not there yet. */
  predicate Refuses(c: Command, t: Tree) {
    match c
    case RmTree(p) => EndsInDots(p)
    case Mv(from, to) =>
      || !Walkable(t, from) || EndsInDots(from)
      || !Walkable(t, if HasDir(t, Resolve(from)) then WithoutSlashes(to) else to)
    case Cp(from, to) => !Walkable(t, from) || !Walkable(t, to)
    case _ => false
  }

  /** rm -f and touch -c say nothing about what they cannot find. */
  predicate Ignores(c: Command, t: Tree) {
    (c.Rm? || c.RmTree? || c.Touch?) && !Walkable(t, c.path)
  }

  /** Runs a command, however its paths are spelled. */
  function Run(c: Command, t: Tree, mode: int, now: int): Option<Tree> {
    if Refuses(c, t) then None
    else if Ignores(c, t) then Some(t)
    else Carry(Located(c), t, mode, now)
  }

  // ----- what comes back, and what is left behind -----

  /** The manner in which a device carries out one command. `ran`: it did so at all. New files and directories get a
      mode and a date of its choosing. `partial`: what an interrupted copy left at its target. `dirTimes`: directories
      whose dates changed on the way. */
  datatype Manner = Manner(ran: bool, mode: int, now: int, partial: Option<seq<byte>>, dirTimes: map<string, int>)

  /** Everything one shell command is answered with. `connected`: the conversation ran to its end and `output` came back;
      there is no exit status. `effect` is what becomes of the device's tree, which may be anything at all; a device
      that obeys acts on the command line in the given manner. */
  datatype ShellReply = ShellReply(connected: bool, output: string, effect: (string, Tree) -> Tree, manner: Manner)

  /** Whatever it is sent, the device does what the command line means, in its own manner. */
  ghost predicate Obedient(r: ShellReply) {
    forall commandLine, t :: Obeys(commandLine, t, r)
  }

  predicate Obeys(commandLine: string, t: Tree, r: ShellReply) {
    r.effect(commandLine, t) == TreeAfter(commandLine, t, r.manner)
  }

  function Retimed(t: Tree, dirTimes: map<string, int>): Tree {
    map p | p in t :: if t[p].Dir? && p in dirTimes then t[p].(mtime := dirTimes[p]) else t[p]
  }

  /** An interrupted copy, or a move that has to copy, may have created or overwritten its target, never its source. */
  function Torn(c: Command, t: Tree, m: Manner): Tree {
    if (c.Cp? || c.Mv?) && m.partial.Some? && HasFile(t, c.from)
    then t[Destination(t, c.from, c.to) := File(m.partial.value, m.mode, m.now)]
    else t
  }

  function Ran(c: Command, t: Tree, m: Manner): Tree {
    match Run(c, t, m.mode, m.now)
    case None => t
    case Some(t') => if m.ran then t' else Torn(Located(c), t, m)
  }

  /** The tree after a command line. */
  function TreeAfter(commandLine: string, t: Tree, m: Manner): Tree {
    match Meaning(commandLine)
    case Some(c) => Retimed(Ran(c, t, m), m.dirTimes)
    case None => t
  }

  function VisibleLength(s: string): (n: nat)
    ensures n <= |s|
    ensures n > 0 ==> s[n - 1] != '\n' && s[n - 1] != '\r'
    ensures forall i :: n <= i < |s| ==> s[i] == '\n' || s[i] == '\r'
    decreases |s|
  {
    if s != "" && (s[|s| - 1] == '\n' || s[|s| - 1] == '\r') then VisibleLength(s[..|s| - 1]) else |s|
  }

  /** Nothing but line ends was printed. */
  predicate IsSilent(output: string) {
    VisibleLength(output) == 0
  }

  /** Such a device is possible, whatever it says and in whatever manner it works. */
  function ObedientReply(connected: bool, output: string, m: Manner): (r: ShellReply)
    ensures Obedient(r) && r.connected == connected && r.output == output && r.manner == m
  {
    ShellReply(connected, output, (commandLine, t) => TreeAfter(commandLine, t, m), m)
  }

  predicate IsSuccess(r: ShellReply) {
    r.connected && IsSilent(r.output)
  }

  /** The device is not silent about a command it did not carry out. */
  predicate Candid(r: ShellReply) {
    IsSuccess(r) ==> r.manner.ran
  }

  /** A silent command is one that was carried out, and could be. */
  predicate SilenceIsSuccess(commandLine: string, t: Tree, r: ShellReply) {
    && Candid(r)
    && (IsSuccess(r) ==>
          && Meaning(commandLine).Some?
          && Run(Meaning(commandLine).value, t, r.manner.mode, r.manner.now).Some?)
  }

  /** A command that did not succeed had no effect. */
  predicate Harmless(r: ShellReply) {
    !IsSuccess(r) ==> !r.manner.ran && r.manner.partial.None?
  }
}
