/** NUL-terminated strings, and the pointer loops that measure, compare and copy them. */
module CStrings {
  import opened Machine

  const NUL: byte := 0

  /** The characters of a literal. */
  function Ascii(s: string): Text {
    seq(|s|, i requires 0 <= i < |s| => s[i] as int % 0x100)
  }

  /** Index of the first NUL at or after `i`, `|m|` if there is none. */
  function NulAt(m: Text, i: nat): (n: nat)
    requires i <= |m|
    ensures i <= n <= |m|
    ensures n < |m| ==> m[n] == 0
    ensures forall k :: i <= k < n ==> m[k] != 0
    decreases |m| - i
  {
    if i == |m| || m[i] == NUL then i else NulAt(m, i + 1)
  }

  /** The C string that starts at `i`. */
  function CString(m: Text, i: nat): Text
    requires i <= |m|
  {
    m[i..NulAt(m, i)]
  }

  lemma CStringIs(m: Text, i: nat, n: nat)
    requires i <= n < |m| && m[n] == NUL && forall k :: i <= k < n ==> m[k] != NUL
    ensures CString(m, i) == m[i..n]
  {}

  lemma CStringFront(m: Text)
    ensures var n := |CString(m, 0)|; n <= |m| && CString(m, 0) == m[..n]
  {}

  lemma NoNuls(m: Text)
    ensures forall k :: 0 <= k < |CString(m, 0)| ==> CString(m, 0)[k] != NUL
  {}

  ghost predicate NoNul(s: Text) {
    forall k :: 0 <= k < |s| ==> s[k] != NUL
  }

  /** A string as it stands in memory. */
  lemma NulEnds(s: Text)
    requires NoNul(s)
    ensures IsCString(s + [NUL]) && CString(s + [NUL], 0) == s
  {
    CStringIs(s + [NUL], 0, |s|);
  }

  // ----- comparing, measuring, copying

  predicate IsCString(m: Text) {
    NulAt(m, 0) < |m|
  }

  /** Dictionary order, bytes taken as unsigned. */
  ghost predicate Before(s: Text, t: Text) {
    |t| > 0 && (|s| == 0 || s[0] < t[0] || (s[0] == t[0] && Before(s[1..], t[1..])))
  }

  /** The strings agree up to index `n`, where `s` ends or has the smaller byte. */
  ghost predicate BeforeAt(s: Text, t: Text, n: nat) {
    n <= |s| && n < |t| && s[..n] == t[..n] && (n == |s| || s[n] < t[n])
  }

  lemma BeforeAtStep(s: Text, t: Text, n: nat)
    requires |s| > 0 && |t| > 0 && s[0] == t[0]
    ensures BeforeAt(s[1..], t[1..], n) <==> BeforeAt(s, t, n + 1)
    ensures !BeforeAt(s, t, 0)
  {
    if n < |s| && n + 1 < |t| {
      assert s[..n + 1] == [s[0]] + s[1..][..n] && t[..n + 1] == [t[0]] + t[1..][..n];
      assert s[..n + 1][1..] == s[1..][..n] && t[..n + 1][1..] == t[1..][..n];
    }
  }

  lemma {:induction false} BeforeIff(s: Text, t: Text)
    ensures Before(s, t) <==> exists n: nat :: BeforeAt(s, t, n)
  {
    hide BeforeAt;
    if |s| > 0 && |t| > 0 && s[0] == t[0] {
      BeforeIff(s[1..], t[1..]);
      BeforeAtStep(s, t, 0);
      if n: nat :| BeforeAt(s, t, n) {
        BeforeAtStep(s, t, n - 1);
        assert BeforeAt(s[1..], t[1..], n - 1);
      }
      if n: nat :| BeforeAt(s[1..], t[1..], n) {
        BeforeAtStep(s, t, n);
      }
    } else {
      BeforeAtFirst(s, t);
    }
  }

  lemma BeforeAtFirst(s: Text, t: Text)
    requires |s| == 0 || |t| == 0 || s[0] != t[0]
    ensures Before(s, t) <==> BeforeAt(s, t, 0)
    ensures forall n: nat :: BeforeAt(s, t, n) ==> n == 0
  {
    forall n: nat | n > 0 && n <= |s| && n < |t| ensures s[..n] != t[..n] {
      assert s[..n][0] == s[0] && t[..n][0] == t[0];
    }
  }

  /** A C string is empty at its NUL, and otherwise its first byte and the string after it. */
  lemma CStringStep(m: Text, i: nat)
    requires i <= |m| && NulAt(m, i) < |m|
    ensures m[i] == NUL ==> CString(m, i) == []
    ensures m[i] != NUL ==> NulAt(m, i + 1) == NulAt(m, i) && CString(m, i) == [m[i]] + CString(m, i + 1)
  {}

  lemma BeforeStep(c: byte, s: Text, t: Text)
    ensures Before([c] + s, [c] + t) <==> Before(s, t)
    ensures [c] + s == [c] + t <==> s == t
  {
    assert ([c] + s)[1..] == s && ([c] + t)[1..] == t;
  }

  lemma BeforeFirst(s: Text, t: Text)
    ensures |s| > 0 && |t| > 0 && s[0] != t[0] ==> (Before(s, t) <==> s[0] < t[0])
    ensures |s| == 0 || |t| == 0 ==> (Before(s, t) <==> |s| < |t|)
  {}

  /** `strcmp`, in the kernel, the shell and the file system alike: negative, zero or positive
      as the first C string comes before, is equal to, or comes after the second. */
  method StrCmp(str1: Text, str2: Text) returns (d: int)
    requires IsCString(str1) && IsCString(str2)
    ensures d == 0 <==> CString(str1, 0) == CString(str2, 0)
    ensures d < 0 <==> Before(CString(str1, 0), CString(str2, 0))
    ensures d > 0 <==> Before(CString(str2, 0), CString(str1, 0))
  {
    hide Before, CString, NulAt;
    var i := 0;
    CStringStep(str1, 0);
    CStringStep(str2, 0);
    while str1[i] != NUL && str1[i] == str2[i]
      invariant 0 <= i < |str1| && i < |str2| && NulAt(str1, i) < |str1| && NulAt(str2, i) < |str2|
      invariant CString(str1, 0) == CString(str2, 0) <==> CString(str1, i) == CString(str2, i)
      invariant Before(CString(str1, 0), CString(str2, 0)) <==> Before(CString(str1, i), CString(str2, i))
      invariant Before(CString(str2, 0), CString(str1, 0)) <==> Before(CString(str2, i), CString(str1, i))
      decreases |str1| - i
    {
      CStringStep(str1, i);
      CStringStep(str2, i);
      BeforeStep(str1[i], CString(str1, i + 1), CString(str2, i + 1));
      BeforeStep(str1[i], CString(str2, i + 1), CString(str1, i + 1));
      i := i + 1;
    }
    CStringStep(str1, i);
    CStringStep(str2, i);
    BeforeFirst(CString(str1, i), CString(str2, i));
    BeforeFirst(CString(str2, i), CString(str1, i));
    d := str1[i];
    d := d - str2[i];
  }

  /** `strlen` */
  method StrLen(str: Text) returns (len: nat)
    requires IsCString(str)
    ensures len == |CString(str, 0)|
  {
    len := 0;
    while str[len] != NUL
      invariant len <= NulAt(str, 0)
      decreases |str| - len
    {
      len := len + 1;
    }
  }

  /** `strcpy`, to index `at` of `dest`. */
  method StrCpy(dest: array<byte>, at: nat, src: Text)
    requires IsCString(src) && at + |CString(src, 0)| < dest.Length
    modifies dest
    ensures dest[at..at + |CString(src, 0)|] == CString(src, 0) && dest[at + |CString(src, 0)|] == NUL
    ensures forall k :: 0 <= k < dest.Length && !(at <= k <= at + |CString(src, 0)|) ==> dest[k] == old(dest[k])
  {
    var i := 0;
    while src[i] != NUL
      invariant i <= NulAt(src, 0)
      invariant forall k :: 0 <= k < i ==> dest[at + k] == src[k]
      invariant forall k :: 0 <= k < dest.Length && !(at <= k < at + i) ==> dest[k] == old(dest[k])
      decreases |src| - i
    {
      dest[at + i] := src[i];
      i := i + 1;
    }
    dest[at + i] := NUL;
  }
}
