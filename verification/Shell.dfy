/** The shell's commands: the in-place tokenizer, the command table and the echo command. */
module Shell {
  import opened Machine
  import opened CStrings
  import opened Tokens
  import TerminalLayout
  import opened Terminal

  const NULL := -1
  const MAX_ARGS := 16

  // ----- shell_parse_command

  /** What `argv` and the buffer hold once the words before index `t` have been cut out:
      for each, a pointer to its start and a NUL at its end, its characters untouched. */
  ghost predicate Cut(s: Text, m: Text, argv: seq<int>, done: seq<Span>) {
    && |m| > |s| && |argv| == |done|
    && forall k {:trigger done[k]} :: 0 <= k < |done| ==>
         && done[k].start < done[k].end <= |s| && argv[k] == done[k].start
         && m[done[k].end] == NUL
         && forall x :: done[k].start <= x < done[k].end ==> m[x] == s[x]
  }

  /** Nothing changes but blanks, and those only to NUL. */
  ghost predicate OnlyBlanksCleared(m0: Text, m: Text, n: nat) {
    && |m| == |m0|
    && forall x :: 0 <= x < |m| ==> m[x] == m0[x] || (x < n && IsBlank(m0[x]) && m[x] == NUL)
  }

  /** Overwriting a byte outside the words already cut out keeps them. */
  lemma CutKept(s: Text, m: Text, m': Text, argv: seq<int>, done: seq<Span>, t: nat)
    requires Cut(s, m, argv, done) && |m'| == |m|
    requires t < |s| && EndsBefore(done, t, |s|)
    requires forall x :: 0 <= x < t ==> m'[x] == m[x]
    ensures Cut(s, m', argv, done)
  {}

  /** One more word cut out. */
  lemma CutMore(s: Text, m: Text, argv: seq<int>, done: seq<Span>, start: nat, end: nat)
    requires Cut(s, m, argv, done) && start < end <= |s| && m[end] == NUL
    requires forall x :: start <= x < end ==> m[x] == s[x]
    ensures Cut(s, m, argv + [start], done + [Span(start, end)])
  {}

  /** From index `t` on, the buffer still holds the line `s` and its NUL. */
  ghost predicate Holds(m: Text, s: Text, t: nat) {
    && t <= |s| < |m| && m[|s|] == NUL
    && (forall k :: t <= k < |s| ==> m[k] == s[k])
    && (forall k :: 0 <= k < |s| ==> s[k] != NUL)
  }

  /** Moves past the spaces and tabs from index `t` on. */
  method SkipSpaces(input: array<byte>, t: nat, ghost s: Text) returns (token: nat)
    requires Holds(input[..], s, t)
    ensures token == SkipBlanks(s, t)
  {
    token := t;
    while input[token] == SPACE || input[token] == TAB
      invariant t <= token <= |s| && SkipBlanks(s, t) == SkipBlanks(s, token)
      decreases |s| - token
    {
      token := token + 1;
    }
  }

  /** Moves to the end of the word that index `t` is in. */
  method FindWordEnd(input: array<byte>, t: nat, ghost s: Text) returns (token: nat)
    requires Holds(input[..], s, t)
    ensures token == WordEnd(s, t)
  {
    token := t;
    while input[token] != NUL && input[token] != SPACE && input[token] != TAB
      invariant t <= token <= |s| && WordEnd(s, t) == WordEnd(s, token)
      decreases |s| - token
    {
      token := token + 1;
    }
  }

  lemma NothingCleared(m: Text, n: nat)
    ensures OnlyBlanksCleared(m, m, n)
  {}

  lemma NothingCut(s: Text, m: Text)
    requires |m| > |s|
    ensures Cut(s, m, [], []) && OnlyBlanksCleared(m, m, |s|)
  {}

  lemma SpansSkip(s: Text, i: nat)
    requires i <= |s|
    ensures Spans(s, i) == Spans(s, SkipBlanks(s, i)) && SkipBlanks(s, SkipBlanks(s, i)) == SkipBlanks(s, i)
  {}

  /** The word at `start` is the next of the words still to come. */
  lemma SpansNext(s: Text, done: seq<Span>, start: nat, end: nat, token: nat)
    requires start < |s| && start == SkipBlanks(s, start) && end == WordEnd(s, start) && token == SkipBlanks(s, end)
    requires Spans(s, 0) == done + Spans(s, start)
    ensures start < end && Spans(s, 0) == (done + [Span(start, end)]) + Spans(s, token)
  {
    assert Spans(s, start) == [Span(start, end)] + Spans(s, end);
    SpansSkip(s, end);
  }

  lemma BlankSkipped(s: Text, end: nat)
    requires end < |s| && IsBlank(s[end])
    ensures SkipBlanks(s, end) == SkipBlanks(s, end + 1)
  {}

  lemma ClearOne(m0: Text, m: Text, m': Text, s: Text, end: nat)
    requires OnlyBlanksCleared(m0, m, |s|) && end <= |s| < |m0| && s == m0[..|s|] && (end < |s| ==> IsBlank(s[end]))
    requires m' == if end < |s| then m[end := NUL] else m
    ensures OnlyBlanksCleared(m0, m', |s|)
  {}

  lemma LineHeld(m: Text)
    requires NulAt(m, 0) < |m|
    ensures var s := CString(m, 0); Holds(m, s, 0) && s == m[..|s|] && |s| == NulAt(m, 0)
  {}

  /** Words cut out so far end before the scan position, or at the end of the line. */
  ghost predicate EndsBefore(done: seq<Span>, token: nat, n: nat) {
    forall k {:trigger done[k]} :: 0 <= k < |done| ==> done[k].end < token || done[k].end == token == n
  }

  lemma NextSpan(done: seq<Span>, start: nat, end: nat, s: Text, token: nat)
    requires EndsBefore(done, start, |s|) && start < end <= |s| && token == SkipBlanks(s, end)
    requires end < |s| ==> IsBlank(s[end])
    ensures EndsBefore(done + [Span(start, end)], token, |s|)
  {}

  /** Once the scan stops, each pointer leads to its word as a C string. */
  lemma CutWords(s: Text, m: Text, argv: seq<int>, done: seq<Span>, token: nat)
    requires Cut(s, m, argv, done) && token <= |s| && Spans(s, 0) == done + Spans(s, token)
    requires forall k :: 0 <= k < |s| ==> s[k] != NUL
    ensures |done| <= |Words(s)| && (token == |s| ==> |done| == |Words(s)|)
    ensures forall k :: 0 <= k < |done| ==> 0 <= argv[k] < |m| && CString(m, argv[k]) == Words(s)[k]
  {
    hide Spans, Words, CString;
    WordsAreSpans(s, token);
    forall k | 0 <= k < |done| ensures 0 <= argv[k] < |m| && CString(m, argv[k]) == Words(s)[k] {
      CutOne(s, m, argv, done, k);
      assert Spans(s, 0)[k] == done[k];
    }
  }

  lemma WordsAreSpans(s: Text, token: nat)
    requires token <= |s|
    ensures |Words(s)| == |Spans(s, 0)| && (token == |s| ==> Spans(s, token) == [])
    ensures forall k :: 0 <= k < |Words(s)| ==> Words(s)[k] == WordAt(s, Spans(s, 0)[k])
  {}

  lemma CutOne(s: Text, m: Text, argv: seq<int>, done: seq<Span>, k: nat)
    requires Cut(s, m, argv, done) && k < |done| && forall k :: 0 <= k < |s| ==> s[k] != NUL
    ensures done[k].start < done[k].end <= |s| && 0 <= argv[k] < |m| && CString(m, argv[k]) == WordAt(s, done[k])
  {
    var w := done[k];
    CStringIs(m, w.start, w.end);
    assert m[w.start..w.end] == s[w.start..w.end];
  }

  /** One round of the tokenizer: end the word at `start` with a NUL and move to the next. */
  method CutWord(input: array<byte>, start: nat, ghost s: Text) returns (token: nat, ghost end: nat)
    requires Holds(input[..], s, start) && start < |s| && start == SkipBlanks(s, start)
    modifies input
    ensures end == WordEnd(s, start) && token == SkipBlanks(s, end)
    ensures Holds(input[..], s, token) && input[end] == NUL
    ensures input[..] == if end < |s| then old(input[..])[end := NUL] else old(input[..])
  {
    hide WordEnd, SkipBlanks;
    token := FindWordEnd(input, start, s);
    end := token;
    if input[token] != NUL {
      input[token] := NUL;
      BlankSkipped(s, end);
      token := SkipSpaces(input, token + 1, s);
    }
  }

  /** `shell_parse_command` on a NUL-terminated buffer: the first `maxArgs - 1` words of
      the line, each left in the buffer as a C string of its own. */
  method ParseCommand(input: array<byte>, argv: array<int>, maxArgs: nat) returns (argc: nat)
    requires NulAt(input[..], 0) < input.Length && 1 <= maxArgs <= argv.Length
    modifies input, argv
    ensures var words := Words(CString(old(input[..]), 0));
      && argc == Min(|words|, maxArgs - 1)
      && argv[argc] == NULL
      && (forall k :: 0 <= k < argc ==> 0 <= argv[k] < input.Length && CString(input[..], argv[k]) == words[k])
    ensures OnlyBlanksCleared(old(input[..]), input[..], NulAt(old(input[..]), 0))
  {
    hide Cut, Spans, Words, OnlyBlanksCleared, NulAt, WordEnd, SkipBlanks, CString;
    ghost var m0 := input[..];
    ghost var s := CString(m0, 0);
    ghost var done: seq<Span> := [];
    LineHeld(m0);
    argc := 0;
    NothingCut(s, m0);
    var token := SkipSpaces(input, 0, s);
    SpansSkip(s, 0);
    while input[token] != NUL && argc < maxArgs - 1
      invariant Holds(input[..], s, token) && token == SkipBlanks(s, token)
      invariant argc == |done| <= maxArgs - 1 && Spans(s, 0) == done + Spans(s, token)
      invariant Cut(s, input[..], argv[..argc], done) && EndsBefore(done, token, |s|)
      invariant OnlyBlanksCleared(m0, input[..], |s|)
      decreases |s| - token
    {
      ghost var start, args, m := token, argv[..argc], input[..];
      argv[argc] := token;
      argc := argc + 1;
      assert argv[..argc] == args + [start];
      ghost var end;
      token, end := CutWord(input, token, s);
      SpansNext(s, done, start, end, token);
      ClearOne(m0, m, input[..], s, end);
      CutKept(s, m, input[..], args, done, start);
      CutMore(s, input[..], args, done, start, end);
      NextSpan(done, start, end, s, token);
      done := done + [Span(start, end)];
    }
    ghost var m := input[..];
    argv[argc] := NULL;
    CutWords(s, m, argv[..argc], done, token);
  }

  // ----- the command table

  const ECHO := Ascii("echo")
  const CLEAR := Ascii("clear")

  /** The names of the built-in commands, in the order of the table. */
  const COMMANDS: seq<Text> := [
    Ascii("help"), ECHO, Ascii("mem"), Ascii("halt"), CLEAR, Ascii("memtest"), Ascii("version"), Ascii("uptime"),
    Ascii("tasks"), Ascii("starttasks"), Ascii("enableints"), Ascii("ls"), Ascii("cat")]

  lemma LettersNoNul(s: string)
    requires forall k :: 0 <= k < |s| ==> 'a' <= s[k] <= 'z'
    ensures NoNul(Ascii(s))
  {}

  lemma FirstNames()
    ensures NoNul(Ascii("help")) && NoNul(ECHO) && NoNul(Ascii("mem")) && NoNul(Ascii("halt")) && NoNul(CLEAR)
    ensures NoNul(Ascii("memtest"))
  {
    hide NoNul;
    LettersNoNul("help");
    LettersNoNul("echo");
    LettersNoNul("mem");
    LettersNoNul("halt");
    LettersNoNul("clear");
    LettersNoNul("memtest");
  }

  lemma LastNames()
    ensures NoNul(Ascii("version")) && NoNul(Ascii("uptime")) && NoNul(Ascii("tasks")) && NoNul(Ascii("starttasks"))
    ensures NoNul(Ascii("enableints")) && NoNul(Ascii("ls")) && NoNul(Ascii("cat"))
  {
    hide NoNul;
    LettersNoNul("version");
    LettersNoNul("uptime");
    LettersNoNul("tasks");
    LettersNoNul("starttasks");
    LettersNoNul("enableints");
    LettersNoNul("ls");
    LettersNoNul("cat");
  }

  lemma NamesAreCStrings(i: nat)
    requires i < |COMMANDS|
    ensures NoNul(COMMANDS[i])
  {
    hide NoNul, Ascii, ECHO, CLEAR;
    FirstNames();
    LastNames();
  }

  /** `shell_find_command`: the entry of that name, -1 if there is none. */
  method FindCommand(name: Text) returns (index: int)
    requires NoNul(name)
    ensures -1 <= index < |COMMANDS| && (index == -1 <==> name !in COMMANDS)
    ensures index >= 0 ==> COMMANDS[index] == name
  {
    hide NulAt, CString, IsCString, NoNul, COMMANDS;
    NulEnds(name);
    for i := 0 to |COMMANDS|
      invariant name !in COMMANDS[..i]
    {
      NamesAreCStrings(i);
      NulEnds(COMMANDS[i]);
      var d := StrCmp(name + [NUL], COMMANDS[i] + [NUL]);
      if d == 0 {
        return i;
      }
      assert COMMANDS[..i + 1] == COMMANDS[..i] + [COMMANDS[i]];
    }
    assert COMMANDS[..|COMMANDS|] == COMMANDS;
    return -1;
  }

  // ----- cmd_echo

  /** `cmd_echo`: the arguments with single spaces between them, then a newline. */
  method CmdEcho(t: VgaTerminal, args: seq<Text>)
    requires t.Valid()
    modifies t, t.buffer
    ensures t.Valid()
    ensures t.log == old(t.log) + Join(if |args| == 0 then [] else args[1..]) + [TerminalLayout.NEWLINE]
  {
    hide Shows, TerminalLayout.Layout, Join, AfterPut;
    ghost var rest := if |args| == 0 then [] else args[1..];
    JoinEmpty();
    var i := 1;
    while i < |args|
      invariant 1 <= i && (|args| > 0 ==> i <= |args|) && t.Valid()
      invariant t.log == old(t.log) + Join(rest[..Min(i - 1, |rest|)])
    {
      JoinMore(rest[..i - 1], args[i]);
      assert rest[..i] == rest[..i - 1] + [args[i]];
      if i > 1 {
        t.PutChar(SPACE);
      }
      t.Write(args[i]);
      i := i + 1;
    }
    assert rest[..Min(i - 1, |rest|)] == rest;
    t.PutChar(TerminalLayout.NEWLINE);
  }

  lemma JoinEmpty()
    ensures Join([]) == []
  {}

  lemma {:induction false} JoinMore(ws: seq<Text>, w: Text)
    ensures Join(ws + [w]) == Join(ws) + (if |ws| > 0 then [32] else []) + w
  {
    if |ws| == 0 {
      assert ws + [w] == [w];
    } else {
      assert (ws + [w])[1..] == ws[1..] + [w];
      JoinMore(ws[1..], w);
    }
  }

  /** The words a line is parsed into: at most fifteen. */
  function Argv(line: Text): seq<Text> {
    Words(line)[..Min(|Words(line)|, MAX_ARGS - 1)]
  }

  /** The first fifteen words, or all of them. */
  lemma ArgvLaw(line: Text)
    ensures |Argv(line)| == (if |Words(line)| > 15 then 15 else |Words(line)|)
    ensures forall k :: 0 <= k < |Argv(line)| ==> Argv(line)[k] == Words(line)[k]
  {}

  /** Typing "echo " and then what an echo command printed gives the same arguments. */
  lemma RetypedEcho(line: Text)
    requires (forall k :: 0 <= k < |line| ==> line[k] != NUL) && |Words(line)| > 0 && Words(line)[0] == ECHO
    ensures Argv(ECHO + [SPACE] + Join(Argv(line)[1..])) == Argv(line)
  {
    WordsAreWords(line);
    var args := Argv(line);
    JoinRoundTrip(args[1..]);
    WordsCons(ECHO, Join(args[1..]));
    assert [ECHO] + args[1..] == args;
  }
}
