/** Decimal numerals, and the kernel's int_to_str (src/string/string.c:5-42). */
module Decimal {
  const INT_LIMIT := 0x8000_0000

  function DigitChar(d: int): (c: char)
    requires 0 <= d < 10
  {
    '0' + d as char
  }

  function DigitValue(c: char): int {
    c as int - '0' as int
  }

  /** The digits of a positive number, most significant first; none for zero. */
  function Digits(n: nat): string {
    if n == 0 then [] else Digits(n / 10) + [DigitChar(n % 10)]
  }

  /** What %d prints. */
  function Numeral(n: int): string {
    if n == 0 then "0" else if n < 0 then ['-'] + Digits(-n) else Digits(n)
  }

  function Value(s: string): int {
    if s == [] then 0 else 10 * Value(s[..|s| - 1]) + DigitValue(s[|s| - 1])
  }

  /** Reading a numeral back. */
  function Parse(s: string): int {
    if s != [] && s[0] == '-' then -Value(s[1..]) else Value(s)
  }

  lemma {:induction false} DigitsValue(n: nat)
    ensures Value(Digits(n)) == n
    ensures forall c | c in Digits(n) :: '0' <= c <= '9'
  {
    if n > 0 {
      DigitsValue(n / 10);
      var s := Digits(n);
      assert s[..|s| - 1] == Digits(n / 10);
    }
  }

  /** %d output decodes back to the number. */
  lemma ParseNumeral(n: int)
    ensures Parse(Numeral(n)) == n
  {
    if n == 0 {
      assert Value("0") == 0;
    } else {
      DigitsValue(if n < 0 then -n else n);
      if n > 0 {
        assert Numeral(n)[0] in Digits(n);
      } else {
        assert Numeral(n)[1..] == Digits(-n);
      }
    }
  }

  /** The digits are the usual ones. */
  lemma DigitsShown(d: nat)
    requires d < 10
    ensures DigitChar(d) == "0123456789"[d] && Numeral(d) == ["0123456789"[d]]
  {
    assert Digits(0) == [];
  }

  function Pow10(k: nat): nat {
    if k == 0 then 1 else 10 * Pow10(k - 1)
  }

  /** The characters in reverse order */
  function Reversed(s: string): (r: string)
    ensures |r| == |s| && forall k | 0 <= k < |s| :: r[k] == s[|s| - 1 - k]
  {
    if s == [] then [] else Reversed(s[1..]) + [s[0]]
  }

  /** int_to_str; the value is never INT_MIN. */
  method IntToStr(value: int, buffer: array<char>)
    requires -INT_LIMIT < value < INT_LIMIT && buffer.Length >= 32
    modifies buffer
    ensures |Numeral(value)| < 32
    ensures buffer[..|Numeral(value)|] == Numeral(value) && buffer[|Numeral(value)|] == '\0'
  {
    hide Value;
    if value == 0 {
      buffer[0] := '0';
      buffer[1] := '\0';
      assert buffer[..1] == "0";
      return;
    }
    var temp := new char[20];
    var v := if value < 0 then -value else value;
    ghost var n: nat := v;
    var i := DigitsReversed(v, temp);
    if value < 0 {
      temp[i] := '-';
      i := i + 1;
    }
    ReversedNumeral(value, temp[..i]);
    hide Numeral, Reversed, Digits;
    CopyReversed(temp, i, buffer);
  }

  lemma ReversedNumeral(value: int, s: string)
    requires value != 0
    requires var d := Digits(if value < 0 then -value else value);
             && |s| == |d| + (if value < 0 then 1 else 0)
             && (forall k | 0 <= k < |d| :: s[k] == d[|d| - 1 - k])
             && (value < 0 ==> s[|d|] == '-')
    ensures Reversed(s) == Numeral(value)
  {
  }

  /** The reversing loop of int_to_str */
  method CopyReversed(temp: array<char>, n: nat, buffer: array<char>)
    requires n <= temp.Length && n < buffer.Length && temp != buffer
    modifies buffer
    ensures buffer[..n] == Reversed(temp[..n]) && buffer[n] == '\0'
  {
    var i, j := n, 0;
    while i > 0
      invariant 0 <= i <= n && i + j == n
      invariant forall k | 0 <= k < j :: buffer[k] == temp[n - 1 - k]
    {
      i := i - 1;
      buffer[j] := temp[i];
      j := j + 1;
    }
    buffer[j] := '\0';
  }

  /** The digit loop of int_to_str: least significant first. */
  method DigitsReversed(value: nat, temp: array<char>) returns (i: nat)
    requires 0 < value < INT_LIMIT && temp.Length == 20
    modifies temp
    ensures i == |Digits(value)| <= 10
    ensures forall k | 0 <= k < i :: temp[k] == Digits(value)[i - 1 - k]
  {
    hide Digits, Pow10, DigitChar;
    var v: nat := value;
    ghost var rest: string := [];
    i := 0;
    TenDigits();
    assert Digits(value) + rest == Digits(value);
    while v != 0
      invariant i <= 10 && v < Pow10(10 - i) && |rest| == i
      invariant Digits(value) == Digits(v) + rest
      invariant forall k | 0 <= k < i :: temp[k] == rest[i - 1 - k]
      decreases v
    {
      temp[i] := DigitChar(v % 10);
      OneDigit(v, 10 - i, rest);
      rest := [DigitChar(v % 10)] + rest;
      v := v / 10;
      i := i + 1;
    }
    NoDigits(rest);
  }

  lemma OneDigit(v: nat, k: nat, rest: string)
    requires 0 < v < Pow10(k)
    ensures k > 0 && v / 10 < Pow10(k - 1)
    ensures Digits(v) + rest == Digits(v / 10) + ([DigitChar(v % 10)] + rest)
  {
  }

  lemma NoDigits(rest: string)
    ensures Digits(0) + rest == rest
  {
  }

  lemma TenDigits()
    ensures Pow10(10) > INT_LIMIT
  {
    assert Pow10(5) == 100000;
    assert Pow10(8) == 100000000;
  }

  lemma NumeralHasNoNul(n: int)
    ensures '\0' !in Numeral(n)
  {
    DigitsValue(if n < 0 then -n else n);
  }
}
