/** Printing numbers: decimal without leading zeros, and hexadecimal in eight digits. */
module Numbers {
  import opened Machine
  import opened TerminalLayout
  import opened Terminal

  const ZERO: byte := 48

  // ----- decimal

  /** Digits of a positive number; nothing for zero. */
  function Digits(v: nat): Text {
    if v == 0 then [] else Digits(v / 10) + [(ZERO + v % 10) as byte]
  }

  function Decimal(v: nat): Text {
    if v == 0 then [ZERO] else Digits(v)
  }

  /** One or more of the characters '0' to '9'. */
  predicate IsDecimal(text: Text) {
    |text| > 0 && forall k :: 0 <= k < |text| ==> 48 <= text[k] <= 57
  }

  /** The number a string of decimal digits stands for. */
  function DecimalValue(text: Text): int {
    if |text| == 0 then 0 else 10 * DecimalValue(text[..|text| - 1]) + text[|text| - 1] - 48
  }

  function Pow10(k: nat): nat {
    if k == 0 then 1 else 10 * Pow10(k - 1)
  }

  lemma {:induction false} DigitsRoundTrip(v: nat)
    ensures DecimalValue(Digits(v)) == v
    ensures v > 0 ==> IsDecimal(Digits(v)) && Digits(v)[0] != ZERO
  {
    if v > 0 {
      DigitsRoundTrip(v / 10);
      assert Digits(v)[..|Digits(v)| - 1] == Digits(v / 10);
    }
  }

  lemma {:induction false} DigitsLength(v: nat, k: nat)
    requires v < Pow10(k)
    ensures |Digits(v)| <= k
  {
    if v > 0 {
      DigitsLength(v / 10, k - 1);
    }
  }

  /** What is printed reads back as the number, has at most ten digits, and starts with
      zero only when the number is zero. */
  lemma DecimalRoundTrip(v: uint32)
    ensures IsDecimal(Decimal(v)) && DecimalValue(Decimal(v)) == v
    ensures |Decimal(v)| <= 10 && (Decimal(v)[0] == 48 <==> v == 0)
  {
    DigitsRoundTrip(v);
    assert Pow10(5) == 100000 && Pow10(10) == 10000000000;
    DigitsLength(v, 10);
    assert [ZERO][..0] == [];
  }

  function Reverse(text: Text): Text {
    if |text| == 0 then [] else Reverse(text[1..]) + [text[0]]
  }

  lemma {:induction false} ReverseStep(text: Text, c: byte)
    ensures Reverse(text + [c]) == [c] + Reverse(text)
  {
    if |text| == 0 {
      assert text + [c] == [c];
    } else {
      assert (text + [c])[1..] == text[1..] + [c];
      ReverseStep(text[1..], c);
    }
  }

  /** First loop of `terminal_write_dec`: digits into the buffer, lowest first. */
  method StoreDigits(value: uint32, digits: array<byte>) returns (pos: nat)
    requires digits.Length == 11 && value > 0
    modifies digits
    ensures 0 < pos <= 10 && Reverse(digits[..pos]) == Decimal(value)
  {
    hide IsDecimal, DecimalValue;
    DecimalRoundTrip(value);
    pos := 0;
    var v := value;
    while v > 0
      invariant 0 <= pos <= 10 && Digits(value) == Digits(v) + Reverse(digits[..pos])
      invariant |Digits(value)| == |Digits(v)| + pos && |Digits(value)| <= 10
    {
      digits[pos] := (ZERO + v % 10) as byte;
      ReverseStep(digits[..pos], digits[pos]);
      assert digits[..pos + 1] == digits[..pos] + [digits[pos]];
      pos := pos + 1;
      v := v / 10;
    }
  }

  /** `terminal_write_dec` */
  method WriteDec(t: VgaTerminal, value: uint32)
    requires t.Valid()
    modifies t, t.buffer
    ensures t.Valid() && t.log == old(t.log) + Decimal(value)
  {
    hide Shows, Layout, AfterPut, Decimal, Reverse;
    if value == 0 {
      ZeroIsZero();
      t.PutChar(ZERO);
      return;
    }
    var digits := new byte[11];
    var pos := StoreDigits(value, digits);
    ghost var text := digits[..];
    var i := pos - 1;
    while i >= 0
      invariant -1 <= i < pos && t.Valid() && digits[..] == text
      invariant t.log + Reverse(text[..i + 1]) == old(t.log) + Decimal(value)
    {
      ReverseStep(text[..i], text[i]);
      assert text[..i + 1] == text[..i] + [text[i]];
      t.PutChar(digits[i]);
      i := i - 1;
    }
    ReverseNothing();
    assert text[..0] == [];
  }

  lemma ZeroIsZero()
    ensures Decimal(0) == [ZERO]
  {}

  lemma ReverseNothing()
    ensures Reverse([]) == []
  {}

  /** The digit-counting loop of `fs_list` counts the digits that are printed. */
  method CountDigits(value: uint32) returns (count: nat)
    ensures count == |Decimal(value)|
  {
    count := 1;
    var v := value;
    while v >= 10
      invariant v > 0 || value == 0
      invariant value > 0 ==> |Digits(value)| == |Digits(v)| + count - 1
      invariant value == 0 ==> count == 1 && v == 0
    {
      count := count + 1;
      v := v / 10;
    }
  }

  // ----- hexadecimal

  const HEX: Text := [48, 49, 50, 51, 52, 53, 54, 55, 56, 57, 65, 66, 67, 68, 69, 70]

  /** The last `n` hexadecimal digits of `v`. */
  function HexDigits(v: nat, n: nat): (text: Text)
    ensures |text| == n
  {
    if n == 0 then [] else HexDigits(v / 16, n - 1) + [HEX[v % 16]]
  }

  /** The characters '0' to '9' and 'A' to 'F'. */
  predicate IsHex(text: Text) {
    forall k :: 0 <= k < |text| ==> 48 <= text[k] <= 57 || 65 <= text[k] <= 70
  }

  function HexValueOf(c: byte): int {
    if c < 65 then c - 48 else c - 55
  }

  function HexValue(text: Text): int {
    if |text| == 0 then 0 else 16 * HexValue(text[..|text| - 1]) + HexValueOf(text[|text| - 1])
  }

  function Pow16(k: nat): nat {
    if k == 0 then 1 else 16 * Pow16(k - 1)
  }

  lemma HexDigit(d: nat)
    requires d < 16
    ensures (48 <= HEX[d] <= 57 || 65 <= HEX[d] <= 70) && HexValueOf(HEX[d]) == d
  {}

  lemma {:induction false} HexDigitsRoundTrip(v: nat, n: nat)
    requires v < Pow16(n)
    ensures HexValue(HexDigits(v, n)) == v && IsHex(HexDigits(v, n))
  {
    hide HexValueOf;
    if n > 0 {
      HexDigit(v % 16);
      HexDigitsRoundTrip(v / 16, n - 1);
      HexLast(v, n);
    }
  }

  lemma HexLast(v: nat, n: nat)
    requires n > 0
    ensures var text := HexDigits(v, n);
      |text| == n && text[..n - 1] == HexDigits(v / 16, n - 1) && text[n - 1] == HEX[v % 16]
  {
    assert HexDigits(v, n)[..n - 1] == HexDigits(v / 16, n - 1);
  }

  /** The eight characters printed are hexadecimal digits and read back as the number. */
  lemma HexRoundTrip(v: uint32)
    ensures |HexDigits(v, 8)| == 8 && IsHex(HexDigits(v, 8)) && HexValue(HexDigits(v, 8)) == v
  {
    assert Pow16(4) == 0x1_0000 && Pow16(8) == TWO32;
    HexDigitsRoundTrip(v, 8);
  }

  /** `terminal_write_hex` */
  method WriteHex(t: VgaTerminal, value: uint32)
    requires t.Valid()
    modifies t, t.buffer
    ensures t.Valid() && t.log == old(t.log) + HexDigits(value, 8)
  {
    hide Shows, Layout, AfterPut, And;
    var buffer := new byte[8];
    var i, v := 7, value;
    while i >= 0
      invariant -1 <= i <= 7 && t.Valid() && t.log == old(t.log)
      invariant HexDigits(value, 8) == HexDigits(v, i + 1) + buffer[i + 1..8]
    {
      LowFourBits(v);
      buffer[i] := HEX[And(v, 15)];
      assert buffer[i..8] == [buffer[i]] + buffer[i + 1..8];
      v := v / 16;
      i := i - 1;
    }
    assert buffer[0..8] == buffer[..8];
    t.Write(buffer[..8]);
  }
}
