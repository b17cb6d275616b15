/** The unbounded layout of everything ever printed: lines broken at newlines, and every
    line cut into rows of eighty columns. */
module TerminalLayout {
  import opened Machine

  const WIDTH := 80
  const HEIGHT := 25
  const NEWLINE: byte := 10
  const BLANK: byte := 32

  /** A line as rows: full rows, then the row the next character would go to. */
  function WrapLine(line: Text): (rows: seq<Text>)
    ensures |rows| > 0
  {
    if |line| < WIDTH then [line] else [line[..WIDTH]] + WrapLine(line[WIDTH..])
  }

  /** Index of the first newline, `|text|` if there is none. */
  function LineEnd(text: Text): (n: nat)
    ensures n <= |text|
    ensures n < |text| ==> text[n] == NEWLINE
    ensures forall k :: 0 <= k < n ==> text[k] != NEWLINE
  {
    if |text| == 0 || text[0] == NEWLINE then 0 else 1 + LineEnd(text[1..])
  }

  function Layout(text: Text): (rows: seq<Text>)
    ensures |rows| > 0
    decreases |text|
  {
    var n := LineEnd(text);
    if n == |text| then WrapLine(text) else WrapLine(text[..n]) + Layout(text[n + 1..])
  }

  function Last(rows: seq<Text>): Text
    requires |rows| > 0
  {
    rows[|rows| - 1]
  }

  function Front(rows: seq<Text>): seq<Text>
    requires |rows| > 0
  {
    rows[..|rows| - 1]
  }

  /** The rows after one more character. */
  function Extend(rows: seq<Text>, c: byte): seq<Text>
    requires |rows| > 0
  {
    if c == NEWLINE then rows + [[]] else
    var row := Last(rows) + [c];
    if |row| == WIDTH then Front(rows) + [row, []] else Front(rows) + [row]
  }

  /** The cursor row is never full, and no row is wider than the screen. */
  lemma {:induction false} WrapLineWidths(line: Text)
    ensures forall k :: 0 <= k < |WrapLine(line)| ==> |WrapLine(line)[k]| <= WIDTH
    ensures |Last(WrapLine(line))| < WIDTH
  {
    if |line| >= WIDTH {
      WrapLineWidths(line[WIDTH..]);
    }
  }

  lemma {:induction false} LayoutWidths(text: Text)
    ensures forall k :: 0 <= k < |Layout(text)| ==> |Layout(text)[k]| <= WIDTH
    ensures |Last(Layout(text))| < WIDTH
    decreases |text|
  {
    hide Layout, WrapLine, LineEnd;
    var n := LineEnd(text);
    LayoutIs(text);
    WrapLineWidths(text[..n]);
    if n < |text| {
      LayoutWidths(text[n + 1..]);
    } else {
      assert text[..n] == text;
    }
  }

  function Concat(rows: seq<Text>): Text {
    if |rows| == 0 then [] else rows[0] + Concat(rows[1..])
  }

  /** Wrapping loses nothing: the rows read one after the other are the line, all but the
      last are full, so a line of exactly eighty characters is followed by an empty row. */
  lemma {:induction false} WrapLineKeepsText(line: Text)
    ensures Concat(WrapLine(line)) == line && |WrapLine(line)| == |line| / 80 + 1
    ensures forall k :: 0 <= k < |WrapLine(line)| - 1 ==> |WrapLine(line)[k]| == 80
  {
    if |line| >= WIDTH {
      WrapLineKeepsText(line[WIDTH..]);
      assert WrapLine(line)[1..] == WrapLine(line[WIDTH..]);
      assert line == line[..WIDTH] + line[WIDTH..];
    } else {
      assert WrapLine(line)[1..] == [];
      assert line + [] == line;
    }
  }

  lemma ExtendAppend(a: seq<Text>, b: seq<Text>, c: byte)
    requires |b| > 0
    ensures Extend(a + b, c) == a + Extend(b, c)
  {
    assert Last(a + b) == Last(b) && Front(a + b) == a + Front(b);
  }

  lemma {:induction false} WrapLineStep(line: Text, c: byte)
    requires c != NEWLINE
    ensures WrapLine(line + [c]) == Extend(WrapLine(line), c)
  {
    if |line| < WIDTH {
      if |line| + 1 == WIDTH {
        assert (line + [c])[..WIDTH] == line + [c] && (line + [c])[WIDTH..] == [];
      }
    } else {
      var rest := line[WIDTH..];
      assert (line + [c])[..WIDTH] == line[..WIDTH] && (line + [c])[WIDTH..] == rest + [c];
      WrapLineStep(rest, c);
      ExtendAppend([line[..WIDTH]], WrapLine(rest), c);
    }
  }

  lemma {:induction false} LineEndStep(text: Text, c: byte)
    ensures LineEnd(text + [c]) == if LineEnd(text) < |text| || c == NEWLINE then LineEnd(text) else |text| + 1
  {
    if |text| == 0 {
      assert (text + [c])[1..] == [];
    } else if text[0] != NEWLINE {
      assert (text + [c])[1..] == text[1..] + [c];
      LineEndStep(text[1..], c);
    }
  }

  lemma LayoutIs(text: Text)
    ensures var n := LineEnd(text);
      Layout(text) == if n == |text| then WrapLine(text) else WrapLine(text[..n]) + Layout(text[n + 1..])
  {
    hide WrapLine, LineEnd;
  }

  /** One more character of output changes the layout only at its end. */
  lemma {:induction false} LayoutStep(text: Text, c: byte)
    ensures Layout(text + [c]) == Extend(Layout(text), c)
    decreases |text|
  {
    hide Layout, WrapLine, LineEnd, Extend;
    var n := LineEnd(text);
    LineEndStep(text, c);
    LayoutIs(text);
    LayoutIs(text + [c]);
    if n < |text| {
      var rest := text[n + 1..];
      FrontAndRest(text, c, n);
      LayoutStep(rest, c);
      ExtendAppend(WrapLine(text[..n]), Layout(rest), c);
    } else if c == NEWLINE {
      assert (text + [c])[..n] == text && (text + [c])[n + 1..] == [];
      EmptyLayout(WrapLine(text));
    } else {
      WrapLineStep(text, c);
    }
  }

  lemma FrontAndRest(text: Text, c: byte, n: nat)
    requires n < |text|
    ensures (text + [c])[..n] == text[..n] && (text + [c])[n + 1..] == text[n + 1..] + [c]
  {}

  lemma EmptyLayout(rows: seq<Text>)
    requires |rows| > 0
    ensures rows + Layout([]) == Extend(rows, NEWLINE)
  {}

  /** Text without newlines is one line. */
  lemma LayoutLine(text: Text)
    requires forall k :: 0 <= k < |text| ==> text[k] != 10
    ensures Concat(Layout(text)) == text && |Layout(text)| == |text| / 80 + 1
    ensures forall k :: 0 <= k < |Layout(text)| - 1 ==> |Layout(text)[k]| == 80
  {
    assert LineEnd(text) == |text|;
    WrapLineKeepsText(text);
  }

  /** A newline ends a line: what follows is laid out on rows of its own. */
  lemma {:induction false} LayoutNewline(before: Text, after: Text)
    ensures Layout(before + [10] + after) == Layout(before) + Layout(after)
    decreases |before|
  {
    var text, n := before + [10] + after, LineEnd(before);
    LineEndNewline(before, after);
    if n < |before| {
      var rest := before[n + 1..];
      assert text[..n] == before[..n] && text[n + 1..] == rest + [10] + after;
      LayoutNewline(rest, after);
    } else {
      assert text[..n] == before && text[n + 1..] == after;
    }
  }

  lemma {:induction false} LineEndNewline(before: Text, after: Text)
    ensures LineEnd(before + [10] + after) == LineEnd(before)
  {
    var text := before + [10] + after;
    if |before| > 0 && before[0] != 10 {
      assert text[0] == before[0] && text[1..] == before[1..] + [10] + after;
      LineEndNewline(before[1..], after);
    } else {
      assert text[0] == 10;
    }
  }

  // ----- the window

  /** First layout row on the screen. */
  function Top(rows: seq<Text>): nat {
    if |rows| > HEIGHT then |rows| - HEIGHT else 0
  }

  /** The character at column `x` of layout row `i`; blank where nothing was written. */
  function CharAt(rows: seq<Text>, i: int, x: int): byte {
    if 0 <= i < |rows| && 0 <= x < |rows[i]| then rows[i][x] else BLANK
  }

  /** The character the screen shows at cell `k`, counted row by row. */
  function ShownAt(rows: seq<Text>, k: nat): byte {
    CharAt(rows, Top(rows) + k / WIDTH, k % WIDTH)
  }

  /** The screen shows the last twenty-five rows, eighty columns each, and spaces where they
      hold nothing. */
  lemma ShownLaw(rows: seq<Text>, y: nat, x: nat)
    requires y < 25 && x < 80
    ensures var i := if |rows| > 25 then |rows| - 25 + y else y;
      ShownAt(rows, y * 80 + x) == if i < |rows| && x < |rows[i]| then rows[i][x] else 32
  {
    assert (y * 80 + x) / 80 == y && (y * 80 + x) % 80 == x;
  }
}
