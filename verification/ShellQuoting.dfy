/** shell_quote and the argv overload of Exec::try_run, against the POSIX shell's own reading of
    the command line (token recognition and quote removal, XCU sections 2.2 and 2.3 of POSIX.1-2017). */
module ShellQuoting {
  import opened Basics

  const NUL: char := '\0'

  predicate IsSafe(c: char) {
    'A' <= c <= 'Z' || 'a' <= c <= 'z' || '0' <= c <= '9' || c in "_-./,:@%^+="
  }

  // ---- the encoder ----

  function Escaped(arg: string): string {
    if arg == "" then ""
    else (if arg[0] == '\'' then "'\\''" else [arg[0]]) + Escaped(arg[1..])
  }

  function Quoted(arg: string): string {
    if arg != "" && (forall i :: 0 <= i < |arg| ==> IsSafe(arg[i])) then arg
    else "'" + Escaped(arg) + "'"
  }

  function CommandLine(argv: seq<string>): string {
    if argv == [] then ""
    else if |argv| == 1 then Quoted(argv[0])
    else CommandLine(argv[..|argv| - 1]) + " " + Quoted(argv[|argv| - 1])
  }

  lemma {:induction false} EscapedAppend(a: string, c: char)
    ensures Escaped(a + [c]) == Escaped(a) + (if c == '\'' then "'\\''" else [c])
  {
    if a != "" {
      assert (a + [c])[1..] == a[1..] + [c];
      EscapedAppend(a[1..], c);
    }
  }

  method ShellQuote(arg: string) returns (quoted: string)
    ensures quoted == Quoted(arg)
    ensures quoted != ""
  {
    if arg != "" && forall i :: 0 <= i < |arg| ==> IsSafe(arg[i]) {
      return arg;
    }
    quoted := "'";
    for i := 0 to |arg|
      invariant quoted == "'" + Escaped(arg[..i])
    {
      EscapedAppend(arg[..i], arg[i]);
      assert arg[..i + 1] == arg[..i] + [arg[i]];
      quoted := quoted + if arg[i] == '\'' then "'\\''" else [arg[i]];
    }
    assert arg[..|arg|] == arg;
    quoted := quoted + "'";
  }

  /** The text that reaches the server: the command is passed on as a C string. */
  function AsCString(s: string): string {
    if s == "" || s[0] == NUL then "" else [s[0]] + AsCString(s[1..])
  }

  predicate NulFree(argv: seq<string>) {
    forall i :: 0 <= i < |argv| ==> NUL !in argv[i]
  }

  /** Joins the quoted elements. The shell at the other end reads back exactly argv, unless an
      element holds a NUL, in which case it does not. */
  method BuildCommand(argv: seq<string>) returns (command: string)
    ensures command == CommandLine(argv)
    ensures ShellWords(AsCString(command)) == Some(argv) <==> NulFree(argv)
  {
    command := "";
    for i := 0 to |argv|
      invariant command == CommandLine(argv[..i])
      invariant command == "" <==> i == 0
    {
      assert argv[..i + 1][..i] == argv[..i];
      if command != "" {
        command := command + " ";
      }
      var quoted := ShellQuote(argv[i]);
      command := command + quoted;
    }
    assert argv[..|argv|] == argv;
    ShellReadsBackIff(argv);
  }

  // ---- the shell ----

  /** Quoting state of the tokeniser. */
  datatype Mode = Plain | Single | Double

  predicate IsBlank(c: char) {
    c == ' ' || c == '\t'
  }

  /** Unquoted, these begin an operator, an expansion or a pattern, or cannot occur. */
  predicate IsSpecial(c: char) {
    c in "\n&|;<>()$`*?[~" || c == NUL
  }

  lemma SafeIsOrdinary(c: char)
    requires IsSafe(c)
    ensures !IsSpecial(c) && !IsBlank(c) && c != '\'' && c != '"' && c != '\\' && c != '#'
  {
  }

  /** Reads s with the words already finished in done and the word being read, if any, in word.
      None when the text is not a list of plain words: an operator, an expansion, a pattern, a
      comment, or an unterminated quote. */
  function Scan(s: string, mode: Mode, word: Option<string>, done: seq<string>): Option<seq<string>>
    decreases |s|
  {
    if s == "" then
      if mode != Plain then None
      else Some(if word.Some? then done + [word.value] else done)
    else
      var c, rest := s[0], s[1..];
      var text := if word.Some? then word.value else "";
      match mode
      case Single =>
        if c == '\'' then Scan(rest, Plain, Some(text), done)
        else Scan(rest, Single, Some(text + [c]), done)
      case Double =>
        if c == '"' then Scan(rest, Plain, Some(text), done)
        else if c in "$`" then None
        else if c == '\\' && rest != "" && rest[0] in "\"\\$`" then
          Scan(rest[1..], Double, Some(text + [rest[0]]), done)
        else if c == '\\' && rest != "" && rest[0] == '\n' then Scan(rest[1..], Double, Some(text), done)
        else Scan(rest, Double, Some(text + [c]), done)
      case Plain =>
        if IsBlank(c) then
          Scan(rest, Plain, None, if word.Some? then done + [word.value] else done)
        else if c == '\'' then Scan(rest, Single, Some(text), done)
        else if c == '"' then Scan(rest, Double, Some(text), done)
        else if c == '\\' then
          if rest == "" then None
          else if rest[0] == '\n' then Scan(rest[1..], Plain, word, done)
          else Scan(rest[1..], Plain, Some(text + [rest[0]]), done)
        else if IsSpecial(c) then None
        else if c == '#' && word.None? then None
        else Scan(rest, Plain, Some(text + [c]), done)
  }

  function ShellWords(s: string): Option<seq<string>> {
    Scan(s, Plain, None, [])
  }

  // ---- what goes over the wire ----

  /** Letters, digits and eleven marks, by their codes. */
  predicate HasSafeCode(c: char) {
    var n := c as int;
    || 48 <= n <= 57 || 65 <= n <= 90 || 97 <= n <= 122
    || n == 95 || 44 <= n <= 47 || n == 58 || n == 64 || n == 37 || n == 94 || n == 43 || n == 61
  }

  lemma SafeCharacters(c: char)
    ensures IsSafe(c) <==> HasSafeCode(c)
  {
  }

  /** Text of safe characters goes as it is; anything else, the empty text included, between quotes. */
  lemma QuotedOnTheWire(arg: string)
    ensures if arg != "" && forall i :: 0 <= i < |arg| ==> HasSafeCode(arg[i]) then Quoted(arg) == arg
            else |Quoted(arg)| >= 2 && Quoted(arg)[0] == '\'' && Quoted(arg)[|Quoted(arg)| - 1] == '\''
  {
    forall c: char ensures IsSafe(c) <==> HasSafeCode(c) {
      SafeCharacters(c);
    }
  }

  // ---- the encoder is inverted by the shell ----

  lemma ScanSafeStep(c: char, rest: string, text: string, word: Option<string>, done: seq<string>)
    requires IsSafe(c) && (word == Some(text) || (word.None? && text == ""))
    ensures Scan([c] + rest, Plain, word, done) == Scan(rest, Plain, Some(text + [c]), done)
  {
    SafeIsOrdinary(c);
    assert ([c] + rest)[0] == c && ([c] + rest)[1..] == rest;
  }

  lemma {:induction false} ScanSafe(arg: string, rest: string, text: string, word: Option<string>, done: seq<string>)
    requires forall i :: 0 <= i < |arg| ==> IsSafe(arg[i])
    requires word == Some(text) || (word.None? && text == "" && arg != "")
    ensures Scan(arg + rest, Plain, word, done) == Scan(rest, Plain, Some(text + arg), done)
    decreases |arg|
  {
    if arg == "" {
      assert arg + rest == rest && text + arg == text;
    } else {
      assert arg + rest == [arg[0]] + (arg[1..] + rest);
      ScanSafeStep(arg[0], arg[1..] + rest, text, word, done);
      ScanSafe(arg[1..], rest, text + [arg[0]], Some(text + [arg[0]]), done);
      assert text + [arg[0]] + arg[1..] == text + arg;
    }
  }

  /** A character inside quotes, and a quote written as close, escaped quote, reopen. */
  lemma ScanEscapedStep(c: char, tail: string, text: string, done: seq<string>)
    ensures Scan((if c == '\'' then "'\\''" else [c]) + tail, Single, Some(text), done)
         == Scan(tail, Single, Some(text + [c]), done)
  {
    if c == '\'' {
      var reopen := "'" + tail;
      var slash := "\\'" + reopen;
      var s := "'\\''" + tail;
      assert s == "'" + slash;
      assert s[1..] == slash && slash[1..][1..] == reopen && reopen[1..] == tail;
      assert Scan(s, Single, Some(text), done) == Scan(slash, Plain, Some(text), done);
      assert Scan(slash, Plain, Some(text), done) == Scan(reopen, Plain, Some(text + ['\'']), done);
    } else {
      assert ([c] + tail)[0] == c && ([c] + tail)[1..] == tail;
    }
  }

  lemma {:induction false} ScanEscaped(arg: string, rest: string, text: string, done: seq<string>)
    ensures Scan(Escaped(arg) + ("'" + rest), Single, Some(text), done) == Scan(rest, Plain, Some(text + arg), done)
    decreases |arg|
  {
    var end := "'" + rest;
    if arg == "" {
      assert Escaped(arg) + end == end && end[0] == '\'' && end[1..] == rest && text + arg == text;
    } else {
      var c, tail := arg[0], Escaped(arg[1..]) + end;
      assert Escaped(arg) + end == (if c == '\'' then "'\\''" else [c]) + tail;
      ScanEscapedStep(c, tail, text, done);
      ScanEscaped(arg[1..], rest, text + [c], done);
      assert text + [c] + arg[1..] == text + arg;
    }
  }

  /** One quoted element is read as one word, whatever it contains and whatever follows. */
  lemma ScanQuoted(arg: string, rest: string, done: seq<string>)
    ensures Scan(Quoted(arg) + rest, Plain, None, done) == Scan(rest, Plain, Some(arg), done)
  {
    if arg != "" && forall i :: 0 <= i < |arg| ==> IsSafe(arg[i]) {
      ScanSafe(arg, rest, "", None, done);
      assert "" + arg == arg;
    } else {
      var s := Quoted(arg) + rest;
      assert s[0] == '\'' && s[1..] == Escaped(arg) + ("'" + rest);
      ScanEscaped(arg, rest, "", done);
      assert "" + arg == arg;
    }
  }

  /** A blank ends the word before it. */
  lemma ScanBlank(rest: string, words: seq<string>)
    requires words != []
    ensures Scan(" " + rest, Plain, Some(words[|words| - 1]), words[..|words| - 1]) == Scan(rest, Plain, None, words)
  {
    assert (" " + rest)[0] == ' ' && (" " + rest)[1..] == rest;
    assert words[..|words| - 1] + [words[|words| - 1]] == words;
  }

  lemma {:induction false} ScanCommandLine(argv: seq<string>, rest: string)
    requires argv != []
    ensures Scan(CommandLine(argv) + rest, Plain, None, [])
         == Scan(rest, Plain, Some(argv[|argv| - 1]), argv[..|argv| - 1])
    decreases |argv|
  {
    var front, last := argv[..|argv| - 1], argv[|argv| - 1];
    if |argv| == 1 {
      ScanQuoted(last, rest, []);
    } else {
      var tail := " " + (Quoted(last) + rest);
      assert CommandLine(argv) + rest == CommandLine(front) + tail;
      ScanCommandLine(front, tail);
      ScanBlank(Quoted(last) + rest, front);
      ScanQuoted(last, rest, front);
    }
  }

  /** Tokenising and quote removal give back argv: empty arguments, quotes, blanks, newlines
      and every metacharacter included. */
  lemma ShellReadsBack(argv: seq<string>)
    ensures ShellWords(CommandLine(argv)) == Some(argv)
  {
    if argv != [] {
      ScanCommandLine(argv, "");
      assert CommandLine(argv) + "" == CommandLine(argv);
      assert argv[..|argv| - 1] + [argv[|argv| - 1]] == argv;
    }
  }

  /** Hence two argument vectors with the same command line are the same. */
  lemma CommandLineIsInjective(a: seq<string>, b: seq<string>)
    requires CommandLine(a) == CommandLine(b)
    ensures a == b
  {
    ShellReadsBack(a);
    ShellReadsBack(b);
  }

  // ---- NUL ----

  lemma {:induction false} AsCStringIsIdentityIff(s: string)
    ensures NUL !in AsCString(s)
    ensures AsCString(s) == s <==> NUL !in s
  {
    if s != "" {
      AsCStringIsIdentityIff(s[1..]);
      if s[0] != NUL {
        assert AsCString(s)[1..] == AsCString(s[1..]);
        assert s == [s[0]] + s[1..];
      }
    }
  }

  lemma {:induction false} EscapedNul(arg: string)
    ensures NUL in Escaped(arg) <==> NUL in arg
  {
    if arg != "" {
      EscapedNul(arg[1..]);
      assert arg == [arg[0]] + arg[1..];
    }
  }

  lemma QuotedNul(arg: string)
    ensures NUL in Quoted(arg) <==> NUL in arg
  {
    EscapedNul(arg);
  }

  lemma NulInConcat(a: string, b: string)
    ensures NUL in a + b <==> NUL in a || NUL in b
  {
  }

  lemma NulFreeAppend(front: seq<string>, last: string)
    ensures NulFree(front + [last]) <==> NulFree(front) && NUL !in last
  {
    assert forall i :: 0 <= i < |front| ==> (front + [last])[i] == front[i];
    assert (front + [last])[|front|] == last;
  }

  lemma {:induction false} CommandLineNul(argv: seq<string>)
    ensures NUL !in CommandLine(argv) <==> NulFree(argv)
    decreases |argv|
  {
    if argv != [] {
      var front, last := argv[..|argv| - 1], argv[|argv| - 1];
      assert front + [last] == argv;
      CommandLineNul(front);
      QuotedNul(last);
      NulFreeAppend(front, last);
      if |argv| > 1 {
        NulInConcat(CommandLine(front), " ");
        NulInConcat(CommandLine(front) + " ", Quoted(last));
      }
    }
  }

  /** No word the shell reads contains a character that was not in its input. */
  lemma {:induction false} ScanAddsNoNul(s: string, mode: Mode, word: Option<string>, done: seq<string>)
    requires NUL !in s && (word.Some? ==> NUL !in word.value) && NulFree(done)
    ensures var r := Scan(s, mode, word, done); r.Some? ==> NulFree(r.value)
    decreases |s|
  {
    if s != "" {
      var c, rest := s[0], s[1..];
      var text := if word.Some? then word.value else "";
      var next := if rest != "" then rest[1..] else "";
      var d := if word.Some? then done + [word.value] else done;
      ScanAddsNoNul(rest, Plain, None, d);
      forall m: Mode, w: Option<string> | w.Some? ==> NUL !in w.value
        ensures var r := Scan(rest, m, w, done); r.Some? ==> NulFree(r.value)
        ensures var r := Scan(next, m, w, done); r.Some? ==> NulFree(r.value)
      {
        ScanAddsNoNul(rest, m, w, done);
        ScanAddsNoNul(next, m, w, done);
      }
      assert NUL !in text && NUL !in text + [c];
      assert rest != "" ==> NUL !in text + [rest[0]];
    }
  }

  /** What the server's shell reads is argv exactly when no element contains a NUL. */
  lemma ShellReadsBackIff(argv: seq<string>)
    ensures ShellWords(AsCString(CommandLine(argv))) == Some(argv) <==> NulFree(argv)
  {
    AsCStringIsIdentityIff(CommandLine(argv));
    CommandLineNul(argv);
    if NulFree(argv) {
      ShellReadsBack(argv);
    } else {
      ScanAddsNoNul(AsCString(CommandLine(argv)), Plain, None, []);
    }
  }
}
