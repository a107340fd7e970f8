/** Quoting words for the device's shell, against the part of the POSIX shell grammar that decides what a command's
    words are (XCU 2.2.1 escape character, 2.2.2 single quotes, 2.3 token recognition). */
module Shell {
  import opened Bytes
  import opened Optional

  // ----- the reference: splitting a command line into words -----

  datatype Mode =
    | Between                    // no word begun
    | InWord
    | Quoted                     // inside single quotes, in a word
    | Escaped(started: bool)     // after a backslash; was a word begun before it?

  /** `simple` is lost on anything that is more than words: operators, expansions, patterns, comments. */
  datatype State = State(words: seq<string>, word: string, mode: Mode, simple: bool)

  /** Characters that mean more than themselves wherever they stand unquoted. */
  predicate IsSpecial(c: char) {
    || c == '|' || c == '&' || c == ';' || c == '<' || c == '>' || c == '(' || c == ')' || c == '$' || c == '`'
    || c == '\"' || c == '\n' || c == '*' || c == '?' || c == '[' || c == '\0'
  }

  /** Characters that mean more than themselves at the start of a word. */
  predicate IsSpecialFirst(c: char) {
    c == '#' || c == '~'
  }

  function Step(st: State, c: char): State {
    match st.mode
    case Quoted =>
      if c == '\'' then st.(mode := InWord)
      else if c == '\0' then st.(simple := false)
      else st.(word := st.word + [c])
    case Escaped(started) =>
      if c == '\n' then st.(mode := if started then InWord else Between)
      else if c == '\0' then st.(simple := false)
      else st.(word := st.word + [c], mode := InWord)
    case _ =>
      if IsBlank(c) then
        if st.mode == InWord then State(st.words + [st.word], "", Between, st.simple) else st
      else if c == '\'' then st.(mode := Quoted)
      else if c == '\\' then st.(mode := Escaped(st.mode == InWord))
      else if IsSpecial(c) || (st.mode == Between && IsSpecialFirst(c)) then st.(simple := false)
      else st.(word := st.word + [c], mode := InWord)
  }

  function Run(st: State, s: string): State
    decreases |s|
  {
    if s == "" then st else Run(Step(st, s[0]), s[1..])
  }

  /** The words of a command line that consists of words only, after quote removal. */
  function Lex(s: string): Option<seq<string>> {
    var st := Run(State([], "", Between, true), s);
    if !st.simple then None
    else
      match st.mode
      case Between => Some(st.words)
      case InWord => Some(st.words + [st.word])
      case _ => None
  }

  lemma {:induction false} RunConcat(st: State, a: string, b: string)
    ensures Run(st, a + b) == Run(Run(st, a), b)
    decreases |a|
  {
    if a == "" {
      assert a + b == b;
    } else {
      assert (a + b)[1..] == a[1..] + b;
      RunConcat(Step(st, a[0]), a[1..], b);
    }
  }

  // ----- quoting -----

  /** What one character becomes inside the quotes. */
  function QuotedChar(c: char): string {
    if c == '\'' then "'\\''" else [c]
  }

  function QuotedChars(arg: string): string {
    if arg == "" then "" else QuotedChars(arg[..|arg| - 1]) + QuotedChar(arg[|arg| - 1])
  }

  function Quote(arg: string): string {
    "'" + QuotedChars(arg) + "'"
  }

  /** shellQuote, with its loop. */
  method ShellQuote(arg: string) returns (out: string)
    ensures out == Quote(arg)
  {
    out := "'";
    for i := 0 to |arg|
      invariant out == "'" + QuotedChars(arg[..i])
    {
      assert arg[..i + 1][..i] == arg[..i];
      if arg[i] == '\'' {
        out := out + "'\\''";
      } else {
        out := out + [arg[i]];
      }
    }
    assert arg[..|arg|] == arg;
    out := out + "'";
  }

  predicate NulFree(s: string) {
    '\0' !in s
  }

  lemma RunQuotedChar(st: State, c: char)
    requires st.mode == Quoted && c != '\0'
    ensures Run(st, QuotedChar(c)) == st.(word := st.word + [c])
  {
    if c == '\'' {
      var s := "'\\''";
      var st1 := Step(st, s[0]);
      var st2 := Step(st1, s[1]);
      var st3 := Step(st2, s[2]);
      assert s[1..][0] == s[1] && s[1..][1..][0] == s[2] && s[1..][1..][1..][0] == s[3];
      assert Run(st, s) == Run(st1, s[1..]) == Run(st2, s[1..][1..]) == Run(st3, s[1..][1..][1..]);
      assert s[1..][1..][1..] == [s[3]];
      assert Run(st3, [s[3]]) == Run(Step(st3, s[3]), [s[3]][1..]);
    } else {
      assert Run(st, [c]) == Run(Step(st, c), [c][1..]);
    }
  }

  lemma {:induction false} RunQuotedChars(st: State, arg: string)
    requires st.mode == Quoted && NulFree(arg)
    ensures Run(st, QuotedChars(arg)) == st.(word := st.word + arg)
  {
    if arg == "" {
      assert st.word + arg == st.word;
    } else {
      var init, last := arg[..|arg| - 1], arg[|arg| - 1];
      RunQuotedChars(st, init);
      RunConcat(st, QuotedChars(init), QuotedChar(last));
      RunQuotedChar(st.(word := st.word + init), last);
      assert st.word + init + [last] == st.word + arg;
    }
  }

  lemma RunOne(st: State, c: char)
    ensures Run(st, [c]) == Step(st, c)
  {
    assert [c][1..] == "";
  }

  /** A quoted argument extends the current word, or begins one, by exactly itself. */
  lemma RunQuote(st: State, arg: string)
    requires (st.mode == Between || st.mode == InWord) && NulFree(arg)
    ensures Run(st, Quote(arg)) == st.(word := st.word + arg, mode := InWord)
  {
    var st1 := st.(mode := Quoted);
    RunOne(st, '\'');
    RunQuotedChars(st1, arg);
    RunOne(st1.(word := st.word + arg), '\'');
    RunConcat(st, "'", QuotedChars(arg) + "'");
    RunConcat(st1, QuotedChars(arg), "'");
    assert Quote(arg) == "'" + (QuotedChars(arg) + "'");
  }

  /** Whatever the argument: quoted, it is one word, and that word is the argument. */
  lemma QuoteIsOneWord(arg: string)
    requires NulFree(arg)
    ensures Lex(Quote(arg)) == Some([arg])
  {
    RunQuote(State([], "", Between, true), arg);
    assert "" + arg == arg && [] + [arg] == [arg];
  }

  // ----- commands: plain words, then quoted arguments -----

  predicate IsPlainChar(c: char) {
    !IsSpecial(c) && !IsSpecialFirst(c) && !IsBlank(c) && c != '\'' && c != '\\'
  }

  predicate IsPlain(w: string) {
    w != "" && forall i :: 0 <= i < |w| ==> IsPlainChar(w[i])
  }

  lemma {:induction false} RunPlain(st: State, w: string)
    requires (st.mode == Between || st.mode == InWord) && forall i :: 0 <= i < |w| ==> IsPlainChar(w[i])
    ensures Run(st, w) == if w == "" then st else st.(word := st.word + w, mode := InWord)
    decreases |w|
  {
    if w != "" {
      var st1 := st.(word := st.word + [w[0]], mode := InWord);
      assert IsPlainChar(w[0]);
      assert Step(st, w[0]) == st1;
      RunPlain(st1, w[1..]);
      assert st.word + [w[0]] + w[1..] == st.word + w;
      if w[1..] == "" {
        assert w == [w[0]];
      }
    }
  }

  /** Plain words, each followed by a blank. */
  function Literal(ws: seq<string>): string {
    if ws == [] then "" else ws[0] + " " + Literal(ws[1..])
  }

  lemma {:induction false} RunLiteral(st: State, ws: seq<string>)
    requires st.mode == Between && st.word == "" && forall i :: 0 <= i < |ws| ==> IsPlain(ws[i])
    ensures Run(st, Literal(ws)) == st.(words := st.words + ws)
    decreases |ws|
  {
    if ws == [] {
      assert st.words + ws == st.words;
    } else {
      assert IsPlain(ws[0]);
      var st2 := st.(words := st.words + [ws[0]]);
      RunLiteralWord(st, ws[0]);
      RunConcat(st, ws[0] + " ", Literal(ws[1..]));
      RunLiteral(st2, ws[1..]);
      assert st.words + [ws[0]] + ws[1..] == st.words + ws;
    }
  }

  lemma RunLiteralWord(st: State, w: string)
    requires st.mode == Between && st.word == "" && IsPlain(w)
    ensures Run(st, w + " ") == st.(words := st.words + [w])
  {
    RunPlain(st, w);
    assert "" + w == w;
    RunConcat(st, w, " ");
    RunOne(st.(word := w, mode := InWord), ' ');
  }

  lemma RunCommand1(ws: seq<string>, arg: string)
    requires NulFree(arg) && forall i :: 0 <= i < |ws| ==> IsPlain(ws[i])
    ensures Run(State([], "", Between, true), Literal(ws) + Quote(arg)) == State(ws, arg, InWord, true)
  {
    var st := State([], "", Between, true);
    RunLiteral(st, ws);
    RunConcat(st, Literal(ws), Quote(arg));
    assert [] + ws == ws && "" + arg == arg;
    RunQuote(State(ws, "", Between, true), arg);
  }

  /** A command with one quoted argument. */
  lemma LexCommand1(ws: seq<string>, arg: string)
    requires NulFree(arg) && forall i :: 0 <= i < |ws| ==> IsPlain(ws[i])
    ensures Lex(Literal(ws) + Quote(arg)) == Some(ws + [arg])
  {
    RunCommand1(ws, arg);
  }

  /** A command with two quoted arguments. */
  lemma LexCommand2(ws: seq<string>, arg: string, arg2: string)
    requires NulFree(arg) && NulFree(arg2) && forall i :: 0 <= i < |ws| ==> IsPlain(ws[i])
    ensures Lex(Literal(ws) + Quote(arg) + " " + Quote(arg2)) == Some(ws + [arg, arg2])
  {
    RunCommand1(ws, arg);
    var first := Literal(ws) + Quote(arg);
    var st := State([], "", Between, true);
    RunConcat(st, first, " ");
    RunOne(State(ws, arg, InWord, true), ' ');
    RunConcat(st, first + " ", Quote(arg2));
    RunQuote(State(ws + [arg], "", Between, true), arg2);
    assert "" + arg2 == arg2 && ws + [arg] + [arg2] == ws + [arg, arg2];
  }
}
