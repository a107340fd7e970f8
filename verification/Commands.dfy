/** The command lines the program builds, and what each of them means to the device. */
module Commands {
  import opened Device
  import opened Optional
  import opened Shell
  import Calendar
  import Decimal

  function DeleteCommand(path: string): string {
    "rm -f " + Quote(path)
  }

  function RemoveDirCommand(path: string): string {
    "rm -rf " + Quote(path)
  }

  function MakeDirCommand(path: string): string {
    "mkdir -p " + Quote(path)
  }

  function MoveCommand(from: string, to: string): string {
    "mv " + Quote(from) + " " + Quote(to)
  }

  function CopyCommand(from: string, to: string): string {
    "cp " + Quote(from) + " " + Quote(to)
  }

  function TouchEpochCommand(mtime: int, path: string): string {
    "touch -c -d @" + Decimal.ToText(mtime) + " " + Quote(path)
  }

  function TouchDateCommand(date: string, path: string): string {
    "TZ=UTC touch -c -t " + date + " " + Quote(path)
  }

  lemma PlainNames()
    ensures IsPlain("rm") && IsPlain("mkdir") && IsPlain("mv") && IsPlain("cp") && IsPlain("touch") && IsPlain("TZ=UTC")
  {
  }

  lemma PlainOptions()
    ensures IsPlain("-f") && IsPlain("-rf") && IsPlain("-p") && IsPlain("-c") && IsPlain("-d") && IsPlain("-t")
  {
  }

  lemma PlainWords()
    ensures IsPlain("rm") && IsPlain("-f") && IsPlain("-rf") && IsPlain("mkdir") && IsPlain("-p") && IsPlain("mv")
    ensures IsPlain("cp") && IsPlain("touch") && IsPlain("-c") && IsPlain("-d") && IsPlain("-t") && IsPlain("TZ=UTC")
  {
    hide IsPlain;
    PlainNames();
    PlainOptions();
  }

  /** Whatever the path holds, the device is asked for exactly the intended operation on exactly that path. */
  lemma MeaningOfDelete(path: string)
    requires NulFree(path)
    ensures Lex(DeleteCommand(path)) == Some(["rm", "-f", path])
    ensures Meaning(DeleteCommand(path)) == Some(Rm(path))
  {
    PlainWords();
    assert Literal(["rm", "-f"]) == "rm -f ";
    LexCommand1(["rm", "-f"], path);
    assert ["rm", "-f"] + [path] == ["rm", "-f", path];
  }

  lemma MeaningOfRemoveDir(path: string)
    requires NulFree(path)
    ensures Lex(RemoveDirCommand(path)) == Some(["rm", "-rf", path])
    ensures Meaning(RemoveDirCommand(path)) == Some(RmTree(path))
  {
    PlainWords();
    assert Literal(["rm", "-rf"]) == "rm -rf ";
    LexCommand1(["rm", "-rf"], path);
    assert ["rm", "-rf"] + [path] == ["rm", "-rf", path];
    assert "-rf" != "-f";
  }

  lemma MeaningOfMakeDir(path: string)
    requires NulFree(path)
    ensures Lex(MakeDirCommand(path)) == Some(["mkdir", "-p", path])
    ensures Meaning(MakeDirCommand(path)) == Some(Mkdir(path))
  {
    PlainWords();
    assert Literal(["mkdir", "-p"]) == "mkdir -p ";
    LexCommand1(["mkdir", "-p"], path);
    assert ["mkdir", "-p"] + [path] == ["mkdir", "-p", path];
    assert "mkdir" != "rm";
  }

  lemma MeaningOfMove(from: string, to: string)
    requires NulFree(from) && NulFree(to)
    ensures Lex(MoveCommand(from, to)) == Some(["mv", from, to])
    ensures Meaning(MoveCommand(from, to)) == Some(Mv(from, to))
  {
    PlainWords();
    assert Literal(["mv"]) == "mv ";
    LexCommand2(["mv"], from, to);
    assert ["mv"] + [from, to] == ["mv", from, to];
    assert "mv" != "rm" && "mv" != "mkdir";
  }

  lemma MeaningOfCopy(from: string, to: string)
    requires NulFree(from) && NulFree(to)
    ensures Lex(CopyCommand(from, to)) == Some(["cp", from, to])
    ensures Meaning(CopyCommand(from, to)) == Some(Cp(from, to))
  {
    PlainWords();
    assert Literal(["cp"]) == "cp ";
    LexCommand2(["cp"], from, to);
    assert ["cp"] + [from, to] == ["cp", from, to];
    assert "cp" != "rm" && "cp" != "mkdir" && "cp" != "mv";
  }

  lemma NumberIsPlain(n: int)
    ensures IsPlain("@" + Decimal.ToText(n))
  {
    hide Decimal.ToText;
    var w := "@" + Decimal.ToText(n);
    assert forall i :: 0 <= i < |w| ==> w[i] == if i == 0 then '@' else Decimal.ToText(n)[i - 1];
  }

  /** The epoch form of touch asks for exactly the second it was given. */
  lemma MeaningOfTouchEpoch(mtime: int, path: string)
    requires NulFree(path)
    ensures Lex(TouchEpochCommand(mtime, path)) == Some(["touch", "-c", "-d", "@" + Decimal.ToText(mtime), path])
    ensures Meaning(TouchEpochCommand(mtime, path)) == Some(Touch(path, mtime))
  {
    PlainWords();
    NumberIsPlain(mtime);
    var n := Decimal.ToText(mtime);
    var ws := ["touch", "-c", "-d", "@" + n];
    TouchEpochLiteral(n);
    LexCommand1(ws, path);
    assert ws + [path] == ["touch", "-c", "-d", "@" + n, path];
    Decimal.FromToText(mtime);
    assert ("@" + n)[1..] == n;
  }

  lemma TouchEpochLiteral(n: string)
    ensures Literal(["touch", "-c", "-d", "@" + n]) == "touch -c -d @" + n + " "
  {
    assert Literal(["@" + n]) == "@" + n + " ";
    assert Literal(["-d", "@" + n]) == "-d " + Literal(["@" + n]);
    assert Literal(["-c", "-d", "@" + n]) == "-c " + Literal(["-d", "@" + n]);
    assert Literal(["touch", "-c", "-d", "@" + n]) == "touch " + Literal(["-c", "-d", "@" + n]);
  }

  lemma DateIsPlain(t: int)
    requires Calendar.FormatTouchTArg(t).Some?
    ensures IsPlain(Calendar.FormatTouchTArg(t).value)
  {
    hide Calendar.FormatTouchTArg, Calendar.ReadTouchT, Calendar.CivilTime;
    Calendar.TouchTRoundTrip(t);
    var w := Calendar.FormatTouchTArg(t).value;
    Calendar.ReadMeansDigits(w);
  }

  /** So does the date form, for every second it can express. */
  lemma MeaningOfTouchDate(t: int, path: string)
    requires NulFree(path) && Calendar.FormatTouchTArg(t).Some?
    ensures var date := Calendar.FormatTouchTArg(t).value;
      && Lex(TouchDateCommand(date, path)) == Some(["TZ=UTC", "touch", "-c", "-t", date, path])
      && Meaning(TouchDateCommand(date, path)) == Some(Touch(path, t))
  {
    hide Calendar.FormatTouchTArg, Calendar.ReadTouchT;
    PlainWords();
    DateIsPlain(t);
    var date := Calendar.FormatTouchTArg(t).value;
    TouchDateLiteral(date);
    LexCommand1(["TZ=UTC", "touch", "-c", "-t", date], path);
    assert ["TZ=UTC", "touch", "-c", "-t", date] + [path] == ["TZ=UTC", "touch", "-c", "-t", date, path];
    Calendar.TouchTRoundTrip(t);
  }

  lemma TouchDateLiteral(date: string)
    ensures Literal(["TZ=UTC", "touch", "-c", "-t", date]) == "TZ=UTC touch -c -t " + date + " "
  {
    assert Literal([date]) == date + " ";
    assert Literal(["-t", date]) == "-t " + Literal([date]);
    assert Literal(["-c", "-t", date]) == "-c " + Literal(["-t", date]);
    assert Literal(["touch", "-c", "-t", date]) == "touch " + Literal(["-c", "-t", date]);
    assert Literal(["TZ=UTC", "touch", "-c", "-t", date]) == "TZ=UTC " + Literal(["touch", "-c", "-t", date]);
  }
}
