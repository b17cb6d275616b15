/** The line editor: scancodes in, the line being typed out. */
module LineEditor {
  import opened Machine
  import opened CStrings
  import opened Tokens
  import opened TerminalLayout
  import opened Terminal
  import opened Shell

  const BUFFER_SIZE := 256
  const KEY_BACKSPACE: byte := 0x0E
  const KEY_ENTER: byte := 0x1C
  const KEY_LCTRL: byte := 0x1D
  const KEY_LSHIFT: byte := 0x2A
  const KEY_RSHIFT: byte := 0x36
  const RELEASED: byte := 0x80
  const PROMPT := Ascii("minicore> ")

  // Characters by scancode, eight to a row.
  const PLAIN: seq<seq<byte>> := [
    [0, 0, 49, 50, 51, 52, 53, 54],
    [55, 56, 57, 48, 45, 61, 0, 0],
    [113, 119, 101, 114, 116, 121, 117, 105],
    [111, 112, 91, 93, 0, 0, 97, 115],
    [100, 102, 103, 104, 106, 107, 108, 59],
    [39, 96, 0, 92, 122, 120, 99, 118],
    [98, 110, 109, 44, 46, 47, 0, 42],
    [0, 32]]
  const SHIFTED: seq<seq<byte>> := [
    [0, 0, 33, 64, 35, 36, 37, 94],
    [38, 42, 40, 41, 95, 43, 0, 0],
    [81, 87, 69, 82, 84, 89, 85, 73],
    [79, 80, 123, 125, 0, 0, 65, 83],
    [68, 70, 71, 72, 74, 75, 76, 58],
    [34, 126, 0, 124, 90, 88, 67, 86],
    [66, 78, 77, 60, 62, 63, 0, 42],
    [0, 32]]
  const LAST_CODE := 0x39

  /** `scancode_to_ascii` */
  function ScancodeToAscii(scancode: byte, shift: bool): byte {
    if scancode > LAST_CODE then NUL else
    TableSizes();
    (if shift then SHIFTED else PLAIN)[scancode / 8][scancode % 8]
  }

  lemma TableSizes()
    ensures |PLAIN| == |SHIFTED| == 8
    ensures forall r :: 0 <= r < 8 ==> |PLAIN[r]| == |SHIFTED[r]| == if r < 7 then 8 else 2
  {}

  predicate IsPrintable(c: byte) {
    32 <= c <= 126
  }

  /** The tables hold printable characters, and 0 where a key has none. */
  lemma KeysArePrintable(scancode: byte, shift: bool)
    ensures var c := ScancodeToAscii(scancode, shift);
      (c == NUL || IsPrintable(c)) && (scancode == 0 ==> c == NUL)
  {
    TableSizes();
    PlainRows(scancode / 8, scancode % 8);
    ShiftedRows(scancode / 8, scancode % 8);
  }

  lemma PlainRows(r: nat, j: nat)
    requires |PLAIN| == 8
    ensures r < 8 && j < |PLAIN[r]| ==> PLAIN[r][j] == NUL || IsPrintable(PLAIN[r][j])
  {}

  lemma ShiftedRows(r: nat, j: nat)
    requires |SHIFTED| == 8
    ensures r < 8 && j < |SHIFTED[r]| ==> SHIFTED[r][j] == NUL || IsPrintable(SHIFTED[r][j])
  {}

  // ----- what a key does

  datatype Editor = Editor(line: Text, shift: bool, ctrl: bool)

  predicate IsLine(line: Text) {
    |line| < BUFFER_SIZE && forall k :: 0 <= k < |line| ==> IsPrintable(line[k])
  }

  /** What one scancode does to the line being typed. Enter empties it. */
  function Edit(e: Editor, scancode: byte): Editor {
    if scancode >= RELEASED then
      var key := scancode - RELEASED;
      if key == KEY_LSHIFT || key == KEY_RSHIFT then e.(shift := false)
      else if key == KEY_LCTRL then e.(ctrl := false)
      else e
    else if scancode == KEY_LSHIFT || scancode == KEY_RSHIFT then e.(shift := true)
    else if scancode == KEY_LCTRL then e.(ctrl := true)
    else if scancode == KEY_ENTER then e.(line := [])
    else if scancode == KEY_BACKSPACE then
      if |e.line| > 0 then e.(line := e.line[..|e.line| - 1]) else e
    else Insert(e, ScancodeToAscii(scancode, e.shift))
  }

  function Insert(e: Editor, c: byte): Editor {
    if IsPrintable(c) && |e.line| < BUFFER_SIZE - 1 then e.(line := e.line + [c]) else e
  }

  /** What one scancode does to the output; `others` is what a built-in command other than
      echo and clear prints. */
  function Printed(log: Text, e: Editor, scancode: byte, others: Text): Text {
    var e' := Edit(e, scancode);
    if scancode == KEY_ENTER then Output(log + [NEWLINE], Argv(e.line), others) + PROMPT
    else if |e'.line| < |e.line| then (if AtRowStart(log) then log else log[..|log| - 1])
    else log + e'.line[|e.line|..]
  }

  /** The output after running a command line. */
  function Output(log: Text, args: seq<Text>, others: Text): Text {
    if |args| == 0 then log
    else if args[0] == ECHO then log + Join(args[1..]) + [NEWLINE]
    else if args[0] == CLEAR then []
    else if args[0] in COMMANDS then log + others
    else log + Ascii(UNKNOWN) + args[0] + Ascii(HINT)
  }

  const UNKNOWN := "Unknown command: "
  const HINT := "\nType 'help' for available commands.\n"

  /** The cursor stands in the first column. */
  predicate AtRowStart(log: Text) {
    |Last(Layout(log))| == 0
  }

  lemma NoWords()
    ensures Argv([]) == []
  {}

  lemma EchoIsCommand()
    ensures ECHO in COMMANDS && CLEAR in COMMANDS
  {
    assert COMMANDS[1] == ECHO && COMMANDS[4] == CLEAR;
  }

  /** The tokenizer hands out words without NULs. */
  lemma ArgvNoNul(line: Text)
    requires IsLine(line)
    ensures forall k :: 0 <= k < |Argv(line)| ==> NoNul(Argv(line)[k])
  {
    assert forall k :: 0 <= k < |line| ==> line[k] != NUL;
    WordsAreWords(line);
    hide Words;
  }

  /** The buffer as `shell_parse_command` sees it. */
  lemma LineAsCString(m: Text, n: nat)
    requires n < |m| && IsLine(m[..n]) && m[n] == NUL
    ensures NulAt(m, 0) == n && CString(m, 0) == m[..n]
  {
    assert forall k :: 0 <= k < n ==> m[k] == m[..n][k];
    CStringIs(m, 0, n);
  }

  class LineEditor {
    const input: array<byte>
    const terminal: VgaTerminal
    var pos: nat
    var shift: bool
    var ctrl: bool

    ghost predicate Valid()
      reads this, input, terminal, terminal.buffer
    {
      && input.Length == BUFFER_SIZE && pos < BUFFER_SIZE
      && IsLine(input[..pos])
      && (forall k :: pos <= k < BUFFER_SIZE ==> input[k] == NUL)
      && terminal.Valid()
    }

    function View(): Editor
      reads this, input
      requires pos <= input.Length
    {
      Editor(input[..pos], shift, ctrl)
    }

    /** The state parts of `shell_init` and `keyboard_init`. */
    constructor (t: VgaTerminal)
      requires t.Valid()
      ensures Valid() && View() == Editor([], false, false)
      ensures terminal == t && fresh(input)
    {
      input := new byte[BUFFER_SIZE](_ => NUL);
      terminal := t;
      pos, shift, ctrl := 0, false, false;
    }

    /** `shell_clear_buffer` */
    method ClearBuffer()
      requires input.Length == BUFFER_SIZE
      modifies this`pos, input
      ensures pos == 0 && forall k :: 0 <= k < BUFFER_SIZE ==> input[k] == NUL
    {
      for i := 0 to BUFFER_SIZE
        invariant forall k :: 0 <= k < i ==> input[k] == NUL
      {
        input[i] := NUL;
      }
      pos := 0;
    }

    /** `shell_backspace` */
    method Backspace()
      requires Valid()
      modifies this`pos, input, terminal, terminal.buffer
      ensures Valid()
      ensures var line := old(input[..pos]);
        && input[..pos] == (if |line| > 0 then line[..|line| - 1] else line)
        && terminal.log == if |line| == 0 || AtRowStart(old(terminal.log)) then old(terminal.log)
                           else old(terminal.log)[..|old(terminal.log)| - 1]
    {
      hide Shows, Layout, AfterPut;
      if pos > 0 {
        pos := pos - 1;
        input[pos] := NUL;
        terminal.EraseLast();
        assert input[..pos] == old(input[..pos])[..pos];
      }
    }

    /** `shell_execute_command`: the words of the line, and what running them prints. Of
        the buffer only blanks are overwritten. */
    method Execute(others: Text) returns (args: seq<Text>)
      requires Valid()
      modifies input, terminal, terminal.buffer
      ensures terminal.Valid()
      ensures args == Argv(old(input[..pos]))
      ensures terminal.log == Output(old(terminal.log), args, others)
      ensures OnlyBlanksCleared(old(input[..]), input[..], pos)
    {
      hide Shows, Layout, AfterPut, CString, Words, Join, OnlyBlanksCleared;
      ghost var line := input[..pos];
      NoWords();
      NothingCleared(input[..], pos);
      if pos == 0 {
        return [];
      }
      var argv := new int[MAX_ARGS];
      LineAsCString(input[..], pos);
      var argc := ParseCommand(input, argv, MAX_ARGS);
      var m, a := input[..], argv[..argc];
      args := seq(argc, i requires 0 <= i < argc && 0 <= a[i] < |m| => CString(m, a[i]));
      assert args == Argv(line);
      if argc == 0 {
        return;
      }
      ArgvNoNul(line);
      Dispatch(args, others);
    }

    /** The rest of `shell_execute_command`: finding the command and running it. */
    method Dispatch(args: seq<Text>, others: Text)
      requires terminal.Valid() && |args| > 0 && NoNul(args[0])
      modifies terminal, terminal.buffer
      ensures terminal.Valid() && terminal.log == Output(old(terminal.log), args, others)
    {
      hide Shows, Layout, AfterPut, Join, Ascii, COMMANDS, NoNul;
      EchoIsCommand();
      var index := FindCommand(args[0]);
      if index >= 0 {
        if COMMANDS[index] == ECHO {
          CmdEcho(terminal, args);
        } else if COMMANDS[index] == CLEAR {
          terminal.Clear();
        } else {
          terminal.Write(others);
        }
      } else {
        terminal.Write(Ascii(UNKNOWN));
        terminal.Write(args[0]);
        terminal.Write(Ascii(HINT));
      }
    }

    /** `shell_process_input` for a character other than a newline. */
    method ProcessInput(c: byte)
      requires Valid() && c != NEWLINE
      modifies this`pos, input, terminal, terminal.buffer
      ensures Valid()
      ensures View() == Insert(old(View()), c)
      ensures terminal.log == old(terminal.log) + if pos == old(pos) then [] else [c]
    {
      hide Shows, Layout, AfterPut;
      if IsPrintable(c) && pos < BUFFER_SIZE - 1 {
        ghost var line := input[..pos];
        input[pos] := c;
        pos := pos + 1;
        terminal.PutChar(c);
        assert input[..pos] == line + [c];
      }
    }

    /** `shell_process_input` for a newline. */
    method ProcessLine(others: Text) returns (args: seq<Text>)
      requires Valid()
      modifies this`pos, input, terminal, terminal.buffer
      ensures Valid() && pos == 0
      ensures args == Argv(old(input[..pos]))
      ensures terminal.log == Output(old(terminal.log) + [NEWLINE], args, others) + PROMPT
    {
      hide Shows, Layout, AfterPut, Argv, Output, OnlyBlanksCleared;
      terminal.PutChar(NEWLINE);
      input[pos] := NUL;
      assert input[..] == old(input[..]);
      assert input[..pos] == input[..][..pos];
      args := Execute(others);
      ClearBuffer();
      terminal.Write(PROMPT);
    }

    /** `keyboard_handler` on a scancode. The line follows `Edit`, the output follows
        `Printed`, and Enter runs the words of the line. */
    method HandleScancode(scancode: byte, others: Text) returns (args: seq<Text>)
      requires Valid()
      modifies this`pos, this`shift, this`ctrl, input, terminal, terminal.buffer
      ensures Valid()
      ensures View() == Edit(old(View()), scancode)
      ensures terminal.log == Printed(old(terminal.log), old(View()), scancode, others)
      ensures args == if scancode == KEY_ENTER then Argv(old(input[..pos])) else []
    {
      hide Shows, Layout, AfterPut, Argv, Output, IsLine, ScancodeToAscii;
      args := [];
      KeysArePrintable(scancode, shift);
      if scancode == 0 {
        return;
      }
      if scancode >= RELEASED {
        var key := scancode - RELEASED;
        if key == KEY_LSHIFT || key == KEY_RSHIFT {
          shift := false;
        } else if key == KEY_LCTRL {
          ctrl := false;
        }
        return;
      }
      if scancode == KEY_LSHIFT || scancode == KEY_RSHIFT {
        shift := true;
        return;
      } else if scancode == KEY_LCTRL {
        ctrl := true;
        return;
      }
      if scancode == KEY_ENTER {
        args := ProcessLine(others);
        return;
      } else if scancode == KEY_BACKSPACE {
        Backspace();
        return;
      }
      var ascii := ScancodeToAscii(scancode, shift);
      if ascii != NUL {
        ProcessInput(ascii);
      }
    }

    /** The polling loop of `shell_run`, on the scancodes that arrive; `others` has what a
        command would print at each. */
    method Run(codes: seq<byte>, others: seq<Text>)
      requires Valid() && |others| == |codes|
      modifies this`pos, this`shift, this`ctrl, input, terminal, terminal.buffer
      ensures Valid() && View() == EditAll(old(View()), codes)
      ensures terminal.log == PrintedAll(old(terminal.log), old(View()), codes, others)
    {
      hide Shows, Layout, AfterPut, Edit, Printed, Argv, IsLine;
      for i := 0 to |codes|
        invariant Valid() && EditAll(View(), codes[i..]) == EditAll(old(View()), codes)
        invariant PrintedAll(terminal.log, View(), codes[i..], others[i..])
               == PrintedAll(old(terminal.log), old(View()), codes, others)
      {
        assert codes[i..][0] == codes[i] && codes[i..][1..] == codes[i + 1..];
        assert others[i..][0] == others[i] && others[i..][1..] == others[i + 1..];
        var _ := HandleScancode(codes[i], others[i]);
      }
    }
  }

  // ----- runs of scancodes

  function EditAll(e: Editor, codes: seq<byte>): Editor
    decreases |codes|
  {
    if |codes| == 0 then e else EditAll(Edit(e, codes[0]), codes[1..])
  }

  /** The output after a run of scancodes. */
  function PrintedAll(log: Text, e: Editor, codes: seq<byte>, others: seq<Text>): Text
    requires |others| == |codes|
    decreases |codes|
  {
    if |codes| == 0 then log
    else PrintedAll(Printed(log, e, codes[0], others[0]), Edit(e, codes[0]), codes[1..], others[1..])
  }

  lemma {:induction false} EditAllAppend(e: Editor, a: seq<byte>, b: seq<byte>)
    ensures EditAll(e, a + b) == EditAll(EditAll(e, a), b)
    decreases |a|
  {
    if |a| == 0 {
      assert a + b == b;
    } else {
      assert (a + b)[0] == a[0] && (a + b)[1..] == a[1..] + b;
      EditAllAppend(Edit(e, a[0]), a[1..], b);
    }
  }

  lemma EditAllStep(e: Editor, codes: seq<byte>, c: byte)
    ensures EditAll(e, codes + [c]) == Edit(EditAll(e, codes), c)
  {
    EditAllAppend(e, codes, [c]);
  }

  /** Whatever is typed, the line stays printable and shorter than the buffer, so the
      tokenizer finds its NUL. */
  lemma {:induction false} RunKeepsLine(e: Editor, codes: seq<byte>)
    requires IsLine(e.line)
    ensures IsLine(EditAll(e, codes).line)
    decreases |codes|
  {
    if |codes| > 0 {
      RunKeepsLine(Edit(e, codes[0]), codes[1..]);
    }
  }

  // ----- the keyboard

  /** Consecutive keys from `start` on give the characters of `text`. */
  ghost predicate RowGives(start: nat, shift: bool, text: string) {
    forall j :: 0 <= j < |text| && start + j < 0x100 ==> ScancodeToAscii(start + j, shift) == text[j] as int
  }

  lemma DigitKeys()
    ensures RowGives(0x02, false, "1234567890-=")
  {
    TableSizes();
  }

  lemma SymbolKeys()
    ensures RowGives(0x02, true, "!@#$%^&*()_+")
  {
    TableSizes();
  }

  lemma TopRowKeys()
    ensures RowGives(0x10, false, "qwertyuiop[]")
  {
    TableSizes();
  }

  lemma TopRowCapitals()
    ensures RowGives(0x10, true, "QWERTYUIOP{}")
  {
    TableSizes();
  }

  lemma HomeRowKeys()
    ensures RowGives(0x1E, false, "asdfghjkl;'`")
  {
    TableSizes();
  }

  lemma HomeRowCapitals()
    ensures RowGives(0x1E, true, "ASDFGHJKL:\"~")
  {
    TableSizes();
  }

  lemma BottomRowKeys()
    ensures RowGives(0x2B, false, "\\zxcvbnm,./")
  {
    TableSizes();
  }

  lemma BottomRowCapitals()
    ensures RowGives(0x2B, true, "|ZXCVBNM<>?")
  {
    TableSizes();
  }

  lemma SpaceAndStar(shift: bool)
    ensures RowGives(0x37, shift, "*") && RowGives(0x39, shift, " ")
  {
    TableSizes();
  }

  /** The keyboard, row by row. */
  lemma KeyboardLaw(shift: bool)
    ensures RowGives(0x02, shift, if shift then "!@#$%^&*()_+" else "1234567890-=")
    ensures RowGives(0x10, shift, if shift then "QWERTYUIOP{}" else "qwertyuiop[]")
    ensures RowGives(0x1E, shift, if shift then "ASDFGHJKL:\"~" else "asdfghjkl;'`")
    ensures RowGives(0x2B, shift, if shift then "|ZXCVBNM<>?" else "\\zxcvbnm,./")
    ensures RowGives(0x37, shift, "*") && RowGives(0x39, shift, " ")
  {
    hide RowGives;
    DigitKeys();
    SymbolKeys();
    TopRowKeys();
    TopRowCapitals();
    HomeRowKeys();
    HomeRowCapitals();
    BottomRowKeys();
    BottomRowCapitals();
    SpaceAndStar(shift);
  }

  /** No other key gives a character. */
  lemma OtherKeys(scancode: byte, shift: bool)
    requires scancode < 0x02 || scancode in {0x0E, 0x0F, 0x1C, 0x1D, 0x2A, 0x36, 0x38} || scancode > 0x39
    ensures ScancodeToAscii(scancode, shift) == 0
  {
    TableSizes();
  }

  /** What each kind of key does to the line. */
  lemma KeyLaw(e: Editor, scancode: byte)
    ensures scancode >= 0x80 || scancode in {0x1D, 0x2A, 0x36} ==> Edit(e, scancode).line == e.line
    ensures scancode == 0x1C ==> Edit(e, scancode).line == []
    ensures scancode == 0x0E ==>
              if |e.line| == 0 then Edit(e, scancode).line == []
              else Edit(e, scancode).line == e.line[..|e.line| - 1]
    ensures scancode < 0x80 && scancode !in {0x0E, 0x1C, 0x1D, 0x2A, 0x36} ==>
              var c := ScancodeToAscii(scancode, e.shift);
              Edit(e, scancode).line == if c != 0 && |e.line| < 255 then e.line + [c] else e.line
  {
    KeysArePrintable(scancode, e.shift);
    hide ScancodeToAscii;
  }

  /** Whether Shift counts as held: what the last press or release of either Shift key says. */
  function ShiftAfter(codes: seq<byte>, shift: bool): bool {
    if |codes| == 0 then shift
    else if codes[|codes| - 1] in {0x2A, 0x36} then true
    else if codes[|codes| - 1] in {0xAA, 0xB6} then false
    else ShiftAfter(codes[..|codes| - 1], shift)
  }

  function CtrlAfter(codes: seq<byte>, ctrl: bool): bool {
    if |codes| == 0 then ctrl
    else if codes[|codes| - 1] == 0x1D then true
    else if codes[|codes| - 1] == 0x9D then false
    else CtrlAfter(codes[..|codes| - 1], ctrl)
  }

  lemma {:induction false} ModifiersLaw(e: Editor, codes: seq<byte>)
    ensures EditAll(e, codes).shift == ShiftAfter(codes, e.shift)
    ensures EditAll(e, codes).ctrl == CtrlAfter(codes, e.ctrl)
    decreases |codes|
  {
    hide ScancodeToAscii;
    if |codes| > 0 {
      var init, c := codes[..|codes| - 1], codes[|codes| - 1];
      assert codes == init + [c];
      ModifiersLaw(e, init);
      EditAllStep(e, init, c);
    }
  }

  // ----- what Enter prints

  /** Enter ends the line on the screen, runs its words and prompts. An empty line prints
      nothing more, `echo` its arguments, `clear` starts the screen over, and a word that is
      no command a message. */
  lemma EnterLaw(log: Text, e: Editor, others: Text)
    ensures var words, printed := Words(e.line), Printed(log, e, 0x1C, others);
      && (|words| == 0 ==> printed == log + [10] + Ascii("minicore> "))
      && (|words| > 0 && words[0] == Ascii("echo") ==>
            printed == log + [10] + Join(Argv(e.line)[1..]) + [10] + Ascii("minicore> "))
      && (|words| > 0 && words[0] == Ascii("clear") ==> printed == Ascii("minicore> "))
      && (|words| > 0 && words[0] !in COMMANDS ==>
            printed == log + [10] + Ascii("Unknown command: ") + words[0]
                       + Ascii("\nType 'help' for available commands.\n") + Ascii("minicore> "))
      && (|words| > 0 && words[0] in COMMANDS && words[0] != Ascii("echo") && words[0] != Ascii("clear") ==>
            printed == log + [10] + others + Ascii("minicore> "))
  {
    assert |ECHO| != |CLEAR| && [] + PROMPT == PROMPT;
    hide Words, Join, COMMANDS, Ascii;
    ArgvLaw(e.line);
    EchoIsCommand();
  }

  /** A key on the keyboard, with or without Shift. */
  datatype Key = Key(code: byte, shift: bool)

  function CharOfKey(k: Key): byte {
    ScancodeToAscii(k.code, k.shift)
  }

  function TextOf(keys: seq<Key>): Text {
    seq(|keys|, i requires 0 <= i < |keys| => CharOfKey(keys[i]))
  }

  /** Hold or release Shift, press the key, release it. */
  function Press(k: Key): seq<byte>
    requires k.code < RELEASED
  {
    [if k.shift then KEY_LSHIFT else KEY_LSHIFT + RELEASED, k.code, k.code + RELEASED]
  }

  function Presses(keys: seq<Key>): seq<byte>
    requires forall k :: 0 <= k < |keys| ==> keys[k].code < RELEASED
  {
    if |keys| == 0 then [] else Press(keys[0]) + Presses(keys[1..])
  }

  /** The keys the handler treats apart have no character, nor have the codes past the table. */
  lemma SpecialKeys(scancode: byte, shift: bool)
    requires scancode in {KEY_BACKSPACE, KEY_ENTER, KEY_LCTRL, KEY_LSHIFT, KEY_RSHIFT}
    ensures ScancodeToAscii(scancode, shift) == NUL
  {
    TableSizes();
    assert KEY_BACKSPACE / 8 == 1 && KEY_ENTER / 8 == 3 && KEY_LSHIFT / 8 == 5 && KEY_RSHIFT / 8 == 6;
    assert KEY_BACKSPACE % 8 == 6 && KEY_ENTER % 8 == 4 && KEY_LSHIFT % 8 == 2 && KEY_RSHIFT % 8 == 6;
  }

  /** Pressing a character key inserts its character. */
  lemma PressInserts(e: Editor, k: Key)
    requires IsPrintable(CharOfKey(k))
    ensures k.code < RELEASED && EditAll(e, Press(k)) == Insert(e.(shift := k.shift), CharOfKey(k))
  {
    hide ScancodeToAscii;
    PressCode(k);
    var e1 := e.(shift := k.shift);
    var e2 := Insert(e1, CharOfKey(k));
    EditAllThree(e, Press(k)[0], k.code, k.code + RELEASED);
  }

  lemma EditAllThree(e: Editor, a: byte, b: byte, c: byte)
    ensures EditAll(e, [a, b, c]) == Edit(Edit(Edit(e, a), b), c)
  {
    hide Edit;
    var e1, e2 := Edit(e, a), Edit(Edit(e, a), b);
    assert [a, b, c][1..] == [b, c] && [b, c][1..] == [c];
    assert EditAll(e1, [b, c]) == EditAll(e2, [c]);
    EditAllStep(e2, [], c);
  }

  lemma PressCode(k: Key)
    requires IsPrintable(CharOfKey(k))
    ensures k.code < RELEASED && k.code !in {KEY_BACKSPACE, KEY_ENTER, KEY_LCTRL, KEY_LSHIFT, KEY_RSHIFT}
  {
    hide ScancodeToAscii;
    NoCharacter(k);
    if k.code in {KEY_BACKSPACE, KEY_ENTER, KEY_LCTRL, KEY_LSHIFT, KEY_RSHIFT} {
      SpecialKeys(k.code, k.shift);
    }
  }

  lemma NoCharacter(k: Key)
    ensures k.code > LAST_CODE ==> CharOfKey(k) == NUL
  {}

  /** As much of a text as the buffer has room for. */
  function Capped(text: Text): Text {
    text[..Min(|text|, BUFFER_SIZE - 1)]
  }

  /** Typing text appends it to the line; what no longer fits is dropped. */
  lemma {:induction false} TypedText(e: Editor, keys: seq<Key>)
    requires |e.line| < BUFFER_SIZE && forall k :: 0 <= k < |keys| ==> IsPrintable(CharOfKey(keys[k]))
    ensures forall k :: 0 <= k < |keys| ==> keys[k].code < RELEASED
    ensures EditAll(e, Presses(keys)).line == Capped(e.line + TextOf(keys))
    decreases |keys|
  {
    hide ScancodeToAscii, Edit, Capped, IsPrintable;
    forall k | 0 <= k < |keys| ensures keys[k].code < RELEASED {
      PressCode(keys[k]);
    }
    InsertThenCap(e.line, 0, []);
    if |keys| == 0 {
      assert e.line + TextOf(keys) == e.line;
    } else {
      PressInserts(e, keys[0]);
      var e' := EditAll(e, Press(keys[0]));
      EditAllAppend(e, Press(keys[0]), Presses(keys[1..]));
      TypedText(e', keys[1..]);
      assert TextOf(keys) == [CharOfKey(keys[0])] + TextOf(keys[1..]);
      InsertThenCap(e.line, CharOfKey(keys[0]), TextOf(keys[1..]));
    }
  }

  lemma InsertThenCap(line: Text, c: byte, rest: Text)
    requires |line| < BUFFER_SIZE
    ensures Capped(line) == line
    ensures Capped((if |line| < BUFFER_SIZE - 1 then line + [c] else line) + rest) == Capped(line + ([c] + rest))
  {
    if |line| < BUFFER_SIZE - 1 {
      assert line + [c] + rest == line + ([c] + rest);
    }
  }

  /** Single spaces take no more room than the blanks they stand for. */
  lemma {:induction false} JoinNoLonger(s: Text, i: nat)
    requires i <= |s|
    ensures |Join(WordsFrom(s, i))| <= |s| - i
    decreases |s| - i
  {
    var j := SkipBlanks(s, i);
    if j < |s| {
      var e := WordEnd(s, j);
      JoinNoLonger(s, SkipBlanks(s, e));
      assert WordsFrom(s, i)[1..] == WordsFrom(s, e);
    }
  }

  lemma {:induction false} JoinPrefix(ws: seq<Text>, n: nat)
    requires n <= |ws|
    ensures |Join(ws[..n])| <= |Join(ws)|
  {
    if 0 < n {
      assert ws[..n][1..] == ws[1..][..n - 1] && ws[..n][0] == ws[0];
      JoinPrefix(ws[1..], n - 1);
    }
  }

  /** After an echo command, pressing the keys for "echo " and for the line it printed,
      then Enter, runs the same command again: the whole text fits the buffer. */
  lemma RetypedEchoLine(line: Text, log: Text, others: Text, printed: Text, keys: seq<Key>, e: Editor)
    requires IsLine(line) && |Words(line)| > 0 && Words(line)[0] == ECHO && e.line == []
    requires Output(log, Argv(line), others) == log + printed + [NEWLINE]
    requires forall k :: 0 <= k < |keys| ==> IsPrintable(CharOfKey(keys[k]))
    requires TextOf(keys) == ECHO + [SPACE] + printed
    ensures forall k :: 0 <= k < |keys| ==> keys[k].code < RELEASED
    ensures Argv(EditAll(e, Presses(keys)).line) == Argv(line)
  {
    hide ScancodeToAscii, Words, EditAll, IsPrintable, Join, COMMANDS;
    assert forall k :: 0 <= k < |line| ==> line[k] != NUL by { LineCharacters(line); }
    RetypedEcho(line);
    TypedText(e, keys);
    EchoRoom(line);
    Middle(log, printed, Join(Argv(line)[1..]));
    assert e.line + TextOf(keys) == TextOf(keys);
    InsertThenCap(TextOf(keys), 0, []);
  }

  lemma Middle(log: Text, a: Text, b: Text)
    requires log + a + [NEWLINE] == log + b + [NEWLINE]
    ensures a == b
  {
    assert |log + a + [NEWLINE]| == |log + b + [NEWLINE]|;
    assert a == (log + a + [NEWLINE])[|log|..|log| + |a|] && b == (log + b + [NEWLINE])[|log|..|log| + |b|];
  }

  lemma LineCharacters(line: Text)
    requires IsLine(line)
    ensures forall k :: 0 <= k < |line| ==> line[k] != NUL
  {}

  lemma EchoRoom(line: Text)
    requires |line| < BUFFER_SIZE && |Words(line)| > 0 && Words(line)[0] == ECHO
    ensures |ECHO + [SPACE] + Join(Argv(line)[1..])| < BUFFER_SIZE
  {
    JoinNoLonger(line, 0);
    JoinPrefix(Words(line), |Argv(line)|);
    JoinEmpty();
  }

  // ----- every line can be typed

  lemma TablesCover(c: byte)
    requires IsPrintable(c)
    ensures exists r :: 0 <= r < 8 && r < |PLAIN| && r < |SHIFTED| && (c in PLAIN[r] || c in SHIFTED[r])
  {
    TableSizes();
    var p, s := PLAIN, SHIFTED;
    assert c in p[0] || c in p[1] || c in p[2] || c in p[3] || c in p[4] || c in p[5] || c in p[6] || c in p[7]
        || c in s[0] || c in s[1] || c in s[2] || c in s[3] || c in s[4] || c in s[5] || c in s[6];
  }

  /** Every printable character has a key. */
  lemma KeyFor(c: byte) returns (k: Key)
    requires IsPrintable(c)
    ensures CharOfKey(k) == c
  {
    hide PLAIN, SHIFTED;
    TableSizes();
    TablesCover(c);
    var r: nat :| r < 8 && (c in PLAIN[r] || c in SHIFTED[r]);
    var shift := c !in PLAIN[r];
    var row := if shift then SHIFTED[r] else PLAIN[r];
    var j: nat :| j < |row| && row[j] == c;
    k := Key(8 * r + j, shift);
    assert k.code / 8 == r && k.code % 8 == j;
  }

  /** So every printable text has keys. */
  lemma {:induction false} KeysFor(text: Text) returns (keys: seq<Key>)
    requires forall k :: 0 <= k < |text| ==> IsPrintable(text[k])
    ensures TextOf(keys) == text && forall k :: 0 <= k < |keys| ==> IsPrintable(CharOfKey(keys[k]))
    decreases |text|
  {
    hide CharOfKey, IsPrintable;
    keys := [];
    if |text| > 0 {
      var k := KeyFor(text[0]);
      var rest := KeysFor(text[1..]);
      keys := [k] + rest;
      assert TextOf(keys) == [text[0]] + TextOf(rest);
    }
  }

  ghost predicate AllPrintable(text: Text) {
    forall k :: 0 <= k < |text| ==> IsPrintable(text[k])
  }

  lemma {:induction false} JoinPrintable(ws: seq<Text>)
    requires forall k :: 0 <= k < |ws| ==> AllPrintable(ws[k])
    ensures AllPrintable(Join(ws))
    decreases |ws|
  {
    if |ws| > 1 {
      JoinPrintable(ws[1..]);
    }
  }

  lemma WordsPrintable(line: Text)
    requires AllPrintable(line)
    ensures forall k :: 0 <= k < |Words(line)| ==> AllPrintable(Words(line)[k])
  {}

  /** What an echo command printed can be typed again: there are keys for "echo " and the
      printed line, and pressing them and Enter runs the same command. */
  lemma EchoCanBeRetyped(line: Text, log: Text, others: Text, printed: Text, e: Editor) returns (keys: seq<Key>)
    requires IsLine(line) && |Words(line)| > 0 && Words(line)[0] == ECHO && e.line == []
    requires Output(log, Argv(line), others) == log + printed + [NEWLINE]
    ensures TextOf(keys) == ECHO + [SPACE] + printed
    ensures forall k :: 0 <= k < |keys| ==> keys[k].code < RELEASED
    ensures Argv(EditAll(e, Presses(keys)).line) == Argv(line)
  {
    hide ScancodeToAscii, Words, Join, COMMANDS, EditAll, TextOf;
    WordsPrintable(line);
    JoinPrintable(Argv(line)[1..]);
    Middle(log, printed, Join(Argv(line)[1..]));
    keys := KeysFor(ECHO + [SPACE] + printed);
    RetypedEchoLine(line, log, others, printed, keys, e);
  }

  /** Backspace takes back the key typed before it exactly when that key had found room;
      with the buffer full it removes an older character. */
  lemma BackspaceUndoesKeyIff(e: Editor, k: Key)
    requires IsLine(e.line) && IsPrintable(CharOfKey(k))
    ensures k.code < RELEASED
    ensures EditAll(e, Press(k) + [KEY_BACKSPACE]).line == e.line <==> |e.line| < BUFFER_SIZE - 1
  {
    hide ScancodeToAscii;
    PressInserts(e, k);
    EditAllStep(e, Press(k), KEY_BACKSPACE);
    assert (e.line + [CharOfKey(k)])[..|e.line|] == e.line;
  }

  /** The buffer is full of 'a'; the key for 's' finds no room, and backspace takes an 'a'. */
  lemma FullBuffer()
    ensures var e := Editor(seq(BUFFER_SIZE - 1, _ => 97), false, false);
      && CharOfKey(Key(0x1F, false)) == 115
      && |EditAll(e, Press(Key(0x1F, false)) + [KEY_BACKSPACE]).line| == |e.line| - 1
  {
    var e, k := Editor(seq(BUFFER_SIZE - 1, _ => 97), false, false), Key(0x1F, false);
    TableSizes();
    assert PLAIN[3][7] == 115;
    hide ScancodeToAscii;
    PressInserts(e, k);
    EditAllStep(e, Press(k), KEY_BACKSPACE);
  }

  // ----- the screen and the line

  /** The key is a backspace that shortens the line in the first column. */
  predicate IsStuck(log: Text, e: Editor, scancode: byte) {
    scancode == KEY_BACKSPACE && |e.line| > 0 && AtRowStart(log)
  }

  /** How many such keys there are in a run. */
  function Stuck(log: Text, e: Editor, codes: seq<byte>, others: seq<Text>): nat
    requires |others| == |codes|
    decreases |codes|
  {
    if |codes| == 0 then 0
    else (if IsStuck(log, e, codes[0]) then 1 else 0)
         + Stuck(Printed(log, e, codes[0], others[0]), Edit(e, codes[0]), codes[1..], others[1..])
  }

  /** The output ends with the line, `stuck` characters aside. */
  ghost predicate Follows(log: Text, before: Text, line: Text, stuck: nat) {
    |log| == |before| + |line| + stuck && (stuck == 0 ==> log == before + line)
  }

  lemma StepFollows(log: Text, before: Text, e: Editor, scancode: byte, others: Text, stuck: nat)
    requires scancode != KEY_ENTER && Follows(log, before, e.line, stuck)
    ensures Follows(Printed(log, e, scancode, others), before, Edit(e, scancode).line,
                    stuck + if IsStuck(log, e, scancode) then 1 else 0)
  {
    hide ScancodeToAscii, Layout;
    var e' := Edit(e, scancode);
    if |e'.line| < |e.line| {
      assert (before + e.line)[..|before + e.line| - 1] == before + e'.line;
    } else {
      assert e'.line == e.line + e'.line[|e.line|..];
      assert before + e.line + e'.line[|e.line|..] == before + e'.line;
    }
  }

  lemma {:induction false} RunFollows(log: Text, before: Text, e: Editor, codes: seq<byte>, others: seq<Text>,
                                      stuck: nat)
    requires |others| == |codes| && KEY_ENTER !in codes && Follows(log, before, e.line, stuck)
    ensures Follows(PrintedAll(log, e, codes, others), before, EditAll(e, codes).line,
                    stuck + Stuck(log, e, codes, others))
    decreases |codes|
  {
    hide Follows, Printed, Edit, IsStuck;
    if |codes| > 0 {
      var more := if IsStuck(log, e, codes[0]) then 1 else 0;
      StepFollows(log, before, e, codes[0], others[0], stuck);
      var log', e' := Printed(log, e, codes[0], others[0]), Edit(e, codes[0]);
      RunFollows(log', before, e', codes[1..], others[1..], stuck + more);
    }
  }

  /** As long as no line is entered, the output ends with the line being typed exactly if
      no backspace met the first column: each one that did has left a character for good. */
  lemma ScreenFollowsLineIff(before: Text, e: Editor, codes: seq<byte>, others: seq<Text>)
    requires |others| == |codes| && KEY_ENTER !in codes
    ensures PrintedAll(before + e.line, e, codes, others) == before + EditAll(e, codes).line
       <==> Stuck(before + e.line, e, codes, others) == 0
  {
    hide PrintedAll, EditAll, Stuck;
    RunFollows(before + e.line, before, e, codes, others, 0);
  }

  /** The column after text without newlines. */
  lemma {:induction false} ColumnAfter(before: Text, text: Text)
    requires forall k :: 0 <= k < |text| ==> text[k] != NEWLINE
    ensures |Last(Layout(before + text))| == (|Last(Layout(before))| + |text|) % WIDTH
  {
    hide Layout;
    LayoutWidths(before);
    if |text| == 0 {
      assert before + text == before;
    } else {
      var init, c := text[..|text| - 1], text[|text| - 1];
      ColumnAfter(before, init);
      LayoutWidths(before + init);
      LayoutStep(before + init, c);
      assert before + text == before + init + [c];
    }
  }

  /** It happens: a line of seventy characters after the prompt fills the row, and the
      backspace that follows shortens the line but leaves the screen as it is. */
  lemma BackspaceLeavesCharacter(e: Editor, before: Text, others: Text)
    requires IsLine(e.line) && |e.line| == WIDTH - |PROMPT|
    ensures var log := before + [NEWLINE] + PROMPT + e.line;
      && Printed(log, e, KEY_BACKSPACE, others) == log
      && Edit(e, KEY_BACKSPACE).line == e.line[..|e.line| - 1]
  {
    hide Layout;
    var text := PROMPT + e.line;
    LayoutStep(before, NEWLINE);
    ColumnAfter(before + [NEWLINE], text);
    assert before + [NEWLINE] + PROMPT + e.line == before + [NEWLINE] + text;
  }
}
