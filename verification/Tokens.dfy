/** Splitting a command line into words, in place. */
module Tokens {
  import opened Machine
  import opened CStrings

  const SPACE: byte := 32
  const TAB: byte := 9

  predicate IsBlank(c: byte) {
    c == SPACE || c == TAB
  }

  // ----- words

  /** First index at or after `i` that is not blank, `|s|` if none. */
  function SkipBlanks(s: Text, i: nat): (j: nat)
    requires i <= |s|
    ensures i <= j <= |s|
    ensures forall k :: i <= k < j ==> IsBlank(s[k])
    ensures j < |s| ==> !IsBlank(s[j])
    decreases |s| - i
  {
    if i < |s| && IsBlank(s[i]) then SkipBlanks(s, i + 1) else i
  }

  /** First index at or after `i` that is blank, `|s|` if none. */
  function WordEnd(s: Text, i: nat): (e: nat)
    requires i <= |s|
    ensures i <= e <= |s|
    ensures forall k :: i <= k < e ==> !IsBlank(s[k])
    ensures e < |s| ==> IsBlank(s[e])
    decreases |s| - i
  {
    if i < |s| && !IsBlank(s[i]) then WordEnd(s, i + 1) else i
  }

  /** A word from `start` up to, not including, `end`. */
  datatype Span = Span(start: nat, end: nat)

  /** The words of `s` from index `i` on, left to right. */
  function Spans(s: Text, i: nat): (w: seq<Span>)
    requires i <= |s|
    ensures forall k :: 0 <= k < |w| ==> i <= w[k].start < w[k].end <= |s|
    decreases |s| - i
  {
    var j := SkipBlanks(s, i);
    if j == |s| then [] else
    var e := WordEnd(s, j);
    [Span(j, e)] + Spans(s, e)
  }

  function WordAt(s: Text, w: Span): Text
    requires w.start <= w.end <= |s|
  {
    s[w.start..w.end]
  }

  function WordsFrom(s: Text, i: nat): (ws: seq<Text>)
    requires i <= |s|
    ensures |ws| == |Spans(s, i)| && forall k :: 0 <= k < |ws| ==> ws[k] == WordAt(s, Spans(s, i)[k])
    decreases |s| - i
  {
    var j := SkipBlanks(s, i);
    if j == |s| then [] else
    var e := WordEnd(s, j);
    [s[j..e]] + WordsFrom(s, e)
  }

  function Words(s: Text): seq<Text> {
    WordsFrom(s, 0)
  }

  /** A maximal run of characters other than tabs and spaces. */
  ghost predicate IsMaximalRun(s: Text, a: nat, b: nat) {
    && a < b <= |s|
    && (forall k :: a <= k < b ==> s[k] != 9 && s[k] != 32)
    && (a > 0 ==> s[a - 1] == 9 || s[a - 1] == 32)
    && (b < |s| ==> s[b] == 9 || s[b] == 32)
  }

  /** The words are the maximal runs of non-blank characters, all of them, in order. */
  lemma {:induction false} SpansAreMaximalRuns(s: Text, i: nat, a: nat, b: nat)
    requires i <= |s| && (i == 0 || i == |s| || IsBlank(s[i]) || IsBlank(s[i - 1]))
    ensures Span(a, b) in Spans(s, i) <==> i <= a && IsMaximalRun(s, a, b)
    decreases |s| - i
  {
    var j := SkipBlanks(s, i);
    if j < |s| {
      var e := WordEnd(s, j);
      SpansAreMaximalRuns(s, e, a, b);
      assert IsMaximalRun(s, j, e) by {
        if j > i { assert IsBlank(s[j - 1]); }
      }
      if i <= a < e && (a != j || b != e) {
        OnlyRun(s, j, e, a, b);
      }
    } else if i <= a < |s| {
      assert IsBlank(s[a]);
    }
  }

  /** No other run begins before the end of a maximal run, or in the blanks before it. */
  lemma OnlyRun(s: Text, a: nat, b: nat, a': nat, b': nat)
    requires IsMaximalRun(s, a, b) && a' < b && (a' >= a || forall k :: a' <= k < a ==> IsBlank(s[k]))
    requires a != a' || b != b'
    ensures !IsMaximalRun(s, a', b')
  {
    if a' < a {
      assert IsBlank(s[a']);
    } else if a < a' {
      assert !IsBlank(s[a' - 1]);
    } else if b < |s| && b < b' {
      assert IsBlank(s[b]);
    } else if a' < b' < b {
      assert !IsBlank(s[b']);
    }
  }

  lemma {:induction false} SpansOrdered(s: Text, i: nat)
    requires i <= |s|
    ensures forall j, k :: 0 <= j < k < |Spans(s, i)| ==> Spans(s, i)[j].end <= Spans(s, i)[k].start
    decreases |s| - i
  {
    if SkipBlanks(s, i) < |s| {
      SpansOrdered(s, WordEnd(s, SkipBlanks(s, i)));
    }
  }

  // ----- joining

  /** Words with single spaces between them. */
  function Join(ws: seq<Text>): Text {
    if |ws| == 0 then [] else if |ws| == 1 then ws[0] else ws[0] + [SPACE] + Join(ws[1..])
  }

  predicate IsWord(w: Text) {
    |w| > 0 && forall k :: 0 <= k < |w| ==> !IsBlank(w[k]) && w[k] != NUL
  }

  lemma WordsStep(s: Text, i: nat)
    requires i <= |s|
    ensures var j := SkipBlanks(s, i);
      WordsFrom(s, i) == if j == |s| then [] else [s[j..WordEnd(s, j)]] + WordsFrom(s, WordEnd(s, j))
  {
    hide SkipBlanks, WordEnd, Spans;
  }

  /** What comes before index `i` plays no part in the words from `i` on. */
  lemma {:induction false} WordsShift(p: Text, s: Text, i: nat)
    requires i <= |s|
    ensures WordsFrom(p + s, |p| + i) == WordsFrom(s, i)
    decreases |s| - i
  {
    hide WordsFrom, SkipBlanks, WordEnd, Spans, IsBlank;
    SkipShift(p, s, i);
    WordsStep(s, i);
    WordsStep(p + s, |p| + i);
    var j := SkipBlanks(s, i);
    if j < |s| {
      var e := WordEnd(s, j);
      EndShift(p, s, j);
      NotEmptyWord(s, i);
      WordsShift(p, s, e);
      SliceShift(p, s, j, e);
    }
  }

  lemma NotEmptyWord(s: Text, i: nat)
    requires i <= |s| && SkipBlanks(s, i) < |s|
    ensures i <= SkipBlanks(s, i) < WordEnd(s, SkipBlanks(s, i)) <= |s|
  {}

  lemma SliceShift(p: Text, s: Text, j: nat, e: nat)
    requires j <= e <= |s|
    ensures (p + s)[|p| + j..|p| + e] == s[j..e]
  {}

  lemma {:induction false} SkipShift(p: Text, s: Text, i: nat)
    requires i <= |s|
    ensures SkipBlanks(p + s, |p| + i) == |p| + SkipBlanks(s, i)
    decreases |s| - i
  {
    if i < |s| {
      assert (p + s)[|p| + i] == s[i];
      if IsBlank(s[i]) {
        SkipShift(p, s, i + 1);
      }
    }
  }

  lemma {:induction false} EndShift(p: Text, s: Text, i: nat)
    requires i <= |s|
    ensures WordEnd(p + s, |p| + i) == |p| + WordEnd(s, i)
    decreases |s| - i
  {
    if i < |s| {
      assert (p + s)[|p| + i] == s[i];
      if !IsBlank(s[i]) {
        EndShift(p, s, i + 1);
      }
    }
  }

  lemma WordEndIs(s: Text, i: nat, e: nat)
    requires i <= e <= |s| && (forall k :: i <= k < e ==> !IsBlank(s[k])) && (e < |s| ==> IsBlank(s[e]))
    ensures WordEnd(s, i) == e
  {}

  /** A word in front of a blank and more text is the first word. */
  lemma WordsCons(w: Text, s: Text)
    requires IsWord(w)
    ensures Words(w + [SPACE] + s) == [w] + Words(s)
  {
    var p := w + [SPACE];
    var t := p + s;
    FirstWord(w, t);
    WordsShift(p, s, 0);
    assert t[|w|] == SPACE;
    assert WordsFrom(t, |w|) == WordsFrom(t, |w| + 1);
  }

  lemma FirstWord(w: Text, t: Text)
    requires IsWord(w) && |w| <= |t| && t[..|w|] == w && (|w| < |t| ==> IsBlank(t[|w|]))
    ensures Words(t) == [w] + WordsFrom(t, |w|)
  {
    assert forall k :: 0 <= k < |w| ==> t[k] == w[k];
    WordEndIs(t, 0, |w|);
    assert SkipBlanks(t, 0) == 0;
  }

  lemma WordsOne(w: Text)
    requires IsWord(w)
    ensures Words(w) == [w]
  {
    FirstWord(w, w);
  }

  /** Joining words with spaces and splitting again gives the words back. */
  lemma {:induction false} JoinRoundTrip(ws: seq<Text>)
    requires forall k :: 0 <= k < |ws| ==> IsWord(ws[k])
    ensures Words(Join(ws)) == ws
  {
    if |ws| == 1 {
      WordsOne(ws[0]);
    } else if |ws| > 1 {
      JoinRoundTrip(ws[1..]);
      WordsCons(ws[0], Join(ws[1..]));
    }
  }

  lemma WordsAreWords(s: Text)
    requires forall k :: 0 <= k < |s| ==> s[k] != NUL
    ensures forall k :: 0 <= k < |Words(s)| ==> IsWord(Words(s)[k])
  {
    forall k | 0 <= k < |Words(s)| ensures IsWord(Words(s)[k]) {
      var w := Spans(s, 0)[k];
      SpansAreMaximalRuns(s, 0, w.start, w.end);
    }
  }
}
