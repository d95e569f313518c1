/** Quoting arguments for `sh -c`, against a tokenizer for the Shell Command Language
    (POSIX.1-2017, Shell and Utilities, sections 2.2 and 2.3). */
module ShellQuote {
  import opened Base

  // ---------- the shell's side ----------

  /** `expands` marks a word with an unquoted pattern or tilde character in it. */
  datatype Token = Word(text: string, expands: bool) | Operator(c: char) | Newline

  /** Where the scan is: between quotes, after a backslash, or in a comment. */
  datatype Mode = Plain | Escaped | Single | Double | DoubleEscaped | Comment

  /** `word` is the token in progress. `Rejected` stands for text outside the fragment:
      parameter expansion, command substitution and here-documents. */
  datatype Scan = Scan(mode: Mode, word: Option<Token>, tokens: seq<Token>) | Rejected

  const START: Scan := Scan(Plain, None, [])

  function Add(word: Option<Token>, c: char, expands: bool): Option<Token> {
    if word.Some? && word.value.Word? then Some(Word(word.value.text + [c], word.value.expands || expands))
    else Some(Word([c], expands))
  }

  /** An opening quote starts a word even if nothing follows between the quotes. */
  function Begin(word: Option<Token>): Option<Token> {
    if word.None? then Some(Word("", false)) else word
  }

  function Flush(st: Scan): seq<Token>
    requires st.Scan?
  {
    if st.word.Some? then st.tokens + [st.word.value] else st.tokens
  }

  predicate IsBlank(c: char) { c == ' ' || c == '\t' }

  predicate IsOperator(c: char) {
    c == '|' || c == '&' || c == ';' || c == '<' || c == '>' || c == '(' || c == ')'
  }

  predicate IsPattern(c: char) { c == '*' || c == '?' || c == '[' || c == '~' }

  predicate IsDoubleEscapable(c: char) { c == '$' || c == '`' || c == '"' || c == '\\' }

  /** A `<` right after this makes the `<<` of a here-document, whose lines are no tokens. */
  predicate AfterLess(st: Scan) {
    st.Scan? && st.word.None? && st.tokens != [] && st.tokens[|st.tokens| - 1] == Operator('<')
  }

  /** One character, by sections 2.2.1 (backslash), 2.2.2 (single quotes), 2.2.3 (double
      quotes) and 2.3 (token recognition). */
  function Step(st: Scan, c: char): Scan {
    match st
    case Rejected => Rejected
    case Scan(Plain, word, tokens) =>
      if c == '\\' then st.(mode := Escaped)
      else if c == '\'' then Scan(Single, Begin(word), tokens)
      else if c == '"' then Scan(Double, Begin(word), tokens)
      else if c == '$' || c == '`' || (c == '<' && AfterLess(st)) then Rejected
      else if c == '\n' then Scan(Plain, None, Flush(st) + [Newline])
      else if IsBlank(c) then Scan(Plain, None, Flush(st))
      else if IsOperator(c) then Scan(Plain, None, Flush(st) + [Operator(c)])
      else if c == '#' && word.None? then Scan(Comment, None, tokens)
      else Scan(Plain, Add(word, c, IsPattern(c)), tokens)
    case Scan(Escaped, word, tokens) =>
      if c == '\n' then st.(mode := Plain) else Scan(Plain, Add(word, c, false), tokens)
    case Scan(Single, word, tokens) =>
      if c == '\'' then st.(mode := Plain) else Scan(Single, Add(word, c, false), tokens)
    case Scan(Double, word, tokens) =>
      if c == '"' then st.(mode := Plain)
      else if c == '\\' then st.(mode := DoubleEscaped)
      else if c == '$' || c == '`' then Rejected
      else Scan(Double, Add(word, c, false), tokens)
    case Scan(DoubleEscaped, word, tokens) =>
      if c == '\n' then st.(mode := Double)
      else if IsDoubleEscapable(c) then Scan(Double, Add(word, c, false), tokens)
      else Scan(Double, Add(Add(word, '\\', false), c, false), tokens)
    case Scan(Comment, _, tokens) =>
      if c == '\n' then Scan(Plain, None, tokens + [Newline]) else st
  }

  function Run(st: Scan, text: string): Scan {
    if text == "" then st else Step(Run(st, text[..|text| - 1]), text[|text| - 1])
  }

  /** The end of the text: an open quote or a trailing backslash is an error. */
  function Finish(st: Scan): Option<seq<Token>> {
    if st.Scan? && (st.mode == Plain || st.mode == Comment) then Some(Flush(st)) else None
  }

  function Tokenize(text: string): Option<seq<Token>> { Finish(Run(START, text)) }

  lemma {:induction false} RunConcat(st: Scan, a: string, b: string)
    ensures Run(st, a + b) == Run(Run(st, a), b)
  {
    hide Step;
    if b == "" {
      assert a + b == a;
    } else {
      assert (a + b)[..|a + b| - 1] == a + b[..|b| - 1];
      RunConcat(st, a, b[..|b| - 1]);
    }
  }

  // ---------- the program's side ----------

  predicate IsSafe(c: char) {
    || 'A' <= c <= 'Z' || 'a' <= c <= 'z' || '0' <= c <= '9'
    || c == '_' || c == '-' || c == '.' || c == '/' || c == ':' || c == '=' || c == ',' || c == '+' || c == '@'
    || c == '%'
  }

  predicate AllSafe(arg: string) {
    forall i :: 0 <= i < |arg| ==> IsSafe(arg[i])
  }

  function EscapeChar(c: char): string {
    if c == '\'' then "'\\''" else [c]
  }

  function Escape(arg: string): string {
    if arg == "" then "" else Escape(arg[..|arg| - 1]) + EscapeChar(arg[|arg| - 1])
  }

  function QuoteArg(arg: string): string {
    if arg == "" then "''"
    else if AllSafe(arg) then arg
    else "'" + Escape(arg) + "'"
  }

  function QuoteArgs(args: seq<string>): string {
    if args == [] then ""
    else if |args| == 1 then QuoteArg(args[0])
    else QuoteArgs(args[..|args| - 1]) + " " + QuoteArg(args[|args| - 1])
  }

  method ShellQuoteArg(arg: string) returns (quoted: string)
    ensures quoted == QuoteArg(arg)
  {
    if arg == "" { return "''"; }
    if AllSafe(arg) { return arg; }
    quoted := "'";
    var i := 0;
    while i < |arg|
      invariant 0 <= i <= |arg|
      invariant quoted == "'" + Escape(arg[..i])
    {
      assert arg[..i + 1][..i] == arg[..i];
      if arg[i] == '\'' {
        quoted := quoted + "'\\''";
      } else {
        quoted := quoted + [arg[i]];
      }
      i := i + 1;
    }
    assert arg[..i] == arg;
    quoted := quoted + "'";
  }

  method ShellQuoteArgs(args: seq<string>) returns (quoted: string)
    ensures quoted == QuoteArgs(args)
    ensures Tokenize(quoted) == Some(Words(args))
  {
    quoted := "";
    var i := 0;
    while i < |args|
      invariant 0 <= i <= |args|
      invariant quoted == QuoteArgs(args[..i])
    {
      assert args[..i + 1][..i] == args[..i];
      var arg := ShellQuoteArg(args[i]);
      if i > 0 { quoted := quoted + " "; }
      quoted := quoted + arg;
      i := i + 1;
    }
    assert args[..i] == args;
    ShellUndoesQuoting(args);
  }

  // ---------- the shell undoes the quoting ----------

  function Words(args: seq<string>): seq<Token> {
    seq(|args|, i requires 0 <= i < |args| => Word(args[i], false))
  }

  lemma SafeStep(word: Option<Token>, tokens: seq<Token>, c: char)
    requires IsSafe(c)
    ensures Step(Scan(Plain, word, tokens), c) == Scan(Plain, Add(word, c, false), tokens)
  {
    hide Add, Flush;
  }

  lemma {:induction false} SafeRun(arg: string, tokens: seq<Token>)
    requires AllSafe(arg)
    ensures Run(Scan(Plain, None, tokens), arg) ==
            Scan(Plain, if arg == "" then None else Some(Word(arg, false)), tokens)
  {
    hide Step, IsSafe;
    if arg != "" {
      var n := |arg| - 1;
      SafeRun(arg[..n], tokens);
      SafeStep(if n == 0 then None else Some(Word(arg[..n], false)), tokens, arg[n]);
      assert arg == arg[..n] + [arg[n]];
    }
  }

  lemma EscapeCharRun(text: string, c: char, tokens: seq<Token>)
    ensures Run(Scan(Single, Some(Word(text, false)), tokens), EscapeChar(c)) ==
            Scan(Single, Some(Word(text + [c], false)), tokens)
  {
    var st := Scan(Single, Some(Word(text, false)), tokens);
    if c == '\'' {
      assert "'\\''"[..3] == "'\\'" && "'\\'"[..2] == "'\\" && "'\\"[..1] == "'" && "'"[..0] == "";
      assert Run(st, "'") == Scan(Plain, Some(Word(text, false)), tokens);
      assert Run(st, "'\\") == Scan(Escaped, Some(Word(text, false)), tokens);
      assert Run(st, "'\\'") == Scan(Plain, Some(Word(text + "'", false)), tokens);
    } else {
      assert [c][..0] == "";
    }
  }

  lemma {:induction false} EscapeRun(arg: string, tokens: seq<Token>)
    ensures Run(Scan(Single, Some(Word("", false)), tokens), Escape(arg)) ==
            Scan(Single, Some(Word(arg, false)), tokens)
  {
    hide Step, EscapeChar;
    if arg != "" {
      var n := |arg| - 1;
      EscapeRun(arg[..n], tokens);
      RunConcat(Scan(Single, Some(Word("", false)), tokens), Escape(arg[..n]), EscapeChar(arg[n]));
      EscapeCharRun(arg[..n], arg[n], tokens);
      assert arg[..n] + [arg[n]] == arg;
    }
  }

  lemma OneStep(st: Scan, c: char)
    ensures Run(st, [c]) == Step(st, c)
  {
    assert [c][..0] == "";
  }

  /** A quoted argument scanned where a token may start is one word: the argument itself. */
  lemma QuoteArgRun(arg: string, tokens: seq<Token>)
    ensures Run(Scan(Plain, None, tokens), QuoteArg(arg)) == Scan(Plain, Some(Word(arg, false)), tokens)
  {
    var st := Scan(Plain, None, tokens);
    if arg != "" && AllSafe(arg) {
      SafeRun(arg, tokens);
    } else {
      OneStep(st, '\'');
      EscapeRun(arg, tokens);
      RunConcat(st, "'", Escape(arg));
      OneStep(Scan(Single, Some(Word(arg, false)), tokens), '\'');
      RunConcat(st, "'" + Escape(arg), "'");
      assert arg == "" ==> QuoteArg(arg) == "'" + Escape(arg) + "'";
    }
  }

  lemma {:induction false} QuoteArgsRun(args: seq<string>, tokens: seq<Token>)
    requires args != []
    ensures var st := Run(Scan(Plain, None, tokens), QuoteArgs(args));
            st.Scan? && st.mode == Plain && Flush(st) == tokens + Words(args)
  {
    hide Step, QuoteArg;
    var st0 := Scan(Plain, None, tokens);
    if |args| == 1 {
      QuoteArgRun(args[0], tokens);
      assert Words(args) == [Word(args[0], false)];
    } else {
      var n := |args| - 1;
      QuoteArgsRun(args[..n], tokens);
      var st := Run(st0, QuoteArgs(args[..n]));
      RunConcat(st0, QuoteArgs(args[..n]), " ");
      OneStep(st, ' ');
      BlankEndsWord(st);
      RunConcat(st0, QuoteArgs(args[..n]) + " ", QuoteArg(args[n]));
      QuoteArgRun(args[n], Flush(st));
      assert Words(args) == Words(args[..n]) + [Word(args[n], false)];
      var last := [Word(args[n], false)];
      assert tokens + (Words(args[..n]) + last) == (tokens + Words(args[..n])) + last;
    }
  }

  lemma BlankEndsWord(st: Scan)
    requires st.Scan? && st.mode == Plain
    ensures Step(st, ' ') == Scan(Plain, None, Flush(st))
  {
  }

  /** The shell reads back exactly the arguments, whatever characters they contain: one
      word each, none of them subject to any expansion, nothing else. */
  lemma ShellUndoesQuoting(args: seq<string>)
    ensures Tokenize(QuoteArgs(args)) == Some(Words(args))
  {
    hide Step;
    if args != [] {
      QuoteArgsRun(args, []);
      assert [] + Words(args) == Words(args);
    } else {
      assert Words(args) == [];
    }
  }

  /** An argument is left as it is exactly when it is not empty and holds nothing but letters,
      digits and the ten marks named; any other is put between single quotes. */
  lemma PlainArgumentsStay(arg: string)
    ensures QuoteArg(arg) == arg <==>
            arg != "" && forall c :: c in arg ==>
              'A' <= c <= 'Z' || 'a' <= c <= 'z' || '0' <= c <= '9' || c in "_-./:=,+@%"
    ensures QuoteArg(arg) != arg ==> |QuoteArg(arg)| >= 2 && QuoteArg(arg)[0] == '\''
                                     && QuoteArg(arg)[|QuoteArg(arg)| - 1] == '\''
  {
    forall c ensures IsSafe(c) <==>
                     'A' <= c <= 'Z' || 'a' <= c <= 'z' || '0' <= c <= '9' || c in "_-./:=,+@%" { }
    EscapeIsNoShorter(arg);
    hide Escape, IsSafe;
    if AllSafe(arg) { forall c | c in arg ensures IsSafe(c) { } }
  }

  lemma {:induction false} EscapeIsNoShorter(arg: string)
    ensures |Escape(arg)| >= |arg|
  {
    if arg != "" { EscapeIsNoShorter(arg[..|arg| - 1]); }
  }

  // ---------- arguments appended to a command ----------

  predicate EndsInComment(cmd: string) {
    var st := Run(START, cmd);
    st.Scan? && st.mode == Comment
  }

  lemma {:induction false} CommentSwallows(tokens: seq<Token>, text: string)
    ensures var st := Run(Scan(Comment, None, tokens), text);
            || st == Rejected || st == Scan(Comment, None, tokens)
            || (|st.tokens| > |tokens| && st.tokens[..|tokens|] == tokens && st.tokens[|tokens|] == Newline)
  {
    if text != "" { CommentSwallows(tokens, text[..|text| - 1]); }
  }

  lemma {:induction false} CommentHasNoWord(text: string)
    ensures var st := Run(START, text); st.Scan? && st.mode == Comment ==> st.word == None
  {
    if text != "" { CommentHasNoWord(text[..|text| - 1]); }
  }

  /** `cmd args` for a complete command: the shell sees the command's own tokens followed by
      exactly the arguments if, and only if, the command does not end in a comment. */
  lemma ArgumentsArriveExactly(cmd: string, args: seq<string>)
    requires Tokenize(cmd).Some? && args != []
    ensures Tokenize(cmd + " " + QuoteArgs(args)) == Some(Tokenize(cmd).value + Words(args)) <==> !EndsInComment(cmd)
  {
    hide Step, QuoteArgs;
    var st := Run(START, cmd);
    RunConcat(START, cmd, " ");
    RunConcat(START, cmd + " ", QuoteArgs(args));
    OneStep(st, ' ');
    if st.mode == Plain {
      BlankEndsWord(st);
      QuoteArgsRun(args, Flush(st));
    } else {
      CommentHasNoWord(cmd);
      RunConcat(st, " ", QuoteArgs(args));
      CommentSwallows(st.tokens, " " + QuoteArgs(args));
      var after := Run(st, " " + QuoteArgs(args));
      if after.Scan? { NotTheArguments(st.tokens, after, args); }
    }
  }

  lemma NotTheArguments(tokens: seq<Token>, st: Scan, args: seq<string>)
    requires args != [] && st.Scan?
    requires st == Scan(Comment, None, tokens)
          || (|st.tokens| > |tokens| && st.tokens[..|tokens|] == tokens && st.tokens[|tokens|] == Newline)
    ensures Flush(st) != tokens + Words(args)
  {
    if st != Scan(Comment, None, tokens) {
      assert Flush(st)[|tokens|] == Newline;
      assert (tokens + Words(args))[|tokens|] == Word(args[0], false);
    } else {
      assert |Flush(st)| == |tokens|;
    }
  }

  /** Every complete command can be followed by a comment; it then reads as before, and any
      arguments appended to it are lost. */
  lemma CommentedCommandsLoseArguments(cmd: string, note: string, args: seq<string>)
    requires Run(START, cmd).Scan? && Run(START, cmd).mode == Plain && '\n' !in note && args != []
    ensures var commented := cmd + " #" + note;
            && EndsInComment(commented) && Tokenize(commented) == Tokenize(cmd)
            && Tokenize(commented + " " + QuoteArgs(args)) != Some(Tokenize(cmd).value + Words(args))
  {
    hide Step, QuoteArgs;
    var st, commented := Run(START, cmd), cmd + " #" + note;
    var between := Scan(Plain, None, Flush(st));
    BlankEndsWord(st);
    CommentBegins(Flush(st));
    OneStep(st, ' ');
    OneStep(between, '#');
    RunConcat(START, cmd, " ");
    RunConcat(START, cmd + " ", "#");
    assert cmd + " #" == cmd + " " + "#";
    RunConcat(START, cmd + " #", note);
    StaysInComment(Flush(st), note);
    ArgumentsArriveExactly(commented, args);
  }

  lemma CommentBegins(tokens: seq<Token>)
    ensures Step(Scan(Plain, None, tokens), '#') == Scan(Comment, None, tokens)
  {
  }

  /** For instance "build # note". */
  lemma CommentedBuildLosesArgument()
    ensures Tokenize("build # note") == Some([Word("build", false)])
    ensures Tokenize("build # note" + " " + QuoteArgs(["x"])) != Some([Word("build", false), Word("x", false)])
  {
    hide Step, QuoteArgs;
    SafeRun("build", []);
    var build: seq<Token> := [Word("build", false)];
    assert Tokenize("build") == Some(build) by { assert [] + build == build; }
    CommentedCommandsLoseArguments("build", " note", ["x"]);
    var commented := "build" + " #" + " note";
    assert commented == "build # note";
    assert Words(["x"]) == [Word("x", false)];
    assert build + [Word("x", false)] == [Word("build", false), Word("x", false)];
  }

  lemma {:induction false} StaysInComment(tokens: seq<Token>, text: string)
    requires '\n' !in text
    ensures Run(Scan(Comment, None, tokens), text) == Scan(Comment, None, tokens)
  {
    if text != "" { StaysInComment(tokens, text[..|text| - 1]); }
  }

  lemma {:induction false} RejectedForGood(text: string)
    ensures Run(Rejected, text) == Rejected
  {
    if text != "" { RejectedForGood(text[..|text| - 1]); }
  }

  /** Wherever it stands unquoted, `<<` puts a command outside the fragment. */
  lemma HereDocumentsAreRejected(before: string, after: string)
    requires Run(START, before).Scan? && Run(START, before).mode == Plain
    ensures Tokenize(before + "<<" + after) == None
  {
    hide Step;
    var st := Run(START, before);
    OneStep(st, '<');
    OneStep(Step(st, '<'), '<');
    SecondLess(st);
    RunConcat(START, before, "<");
    RunConcat(START, before + "<", "<");
    assert before + "<<" == before + "<" + "<";
    RunConcat(START, before + "<<", after);
    RejectedForGood(after);
  }

  lemma SecondLess(st: Scan)
    requires st.Scan? && st.mode == Plain
    ensures Step(Step(st, '<'), '<') == Rejected
  {
    assert Step(st, '<') == Rejected || Step(st, '<') == Scan(Plain, None, Flush(st) + [Operator('<')]);
  }
}
