// Decimal numerals: how an output stream and std::to_string print numbers, and how digits are read back.
module Numerals {

  predicate IsDigit(c: char) { '0' <= c <= '9' }

  predicate AllDigits(s: string) {
    forall i | 0 <= i < |s| :: IsDigit(s[i])
  }

  function DigitChar(n: nat): (c: char)
    requires n < 10
    ensures IsDigit(c) && DigitValue(c) == n
  {
    '0' + n as char
  }

  function DigitValue(c: char): (n: nat)
    requires IsDigit(c)
    ensures n < 10
  {
    (c - '0') as nat
  }

  function Decimal(n: nat): (s: string)
    ensures s != [] && AllDigits(s)
  {
    if n < 10 then [DigitChar(n)] else Decimal(n / 10) + [DigitChar(n % 10)]
  }

  function NumberOf(s: string): nat
    requires AllDigits(s)
  {
    if s == [] then 0 else 10 * NumberOf(s[..|s| - 1]) + DigitValue(s[|s| - 1])
  }

  lemma {:induction false} DecimalRead(n: nat)
    ensures NumberOf(Decimal(n)) == n
  {
    if n >= 10 {
      DecimalRead(n / 10);
      assert Decimal(n)[..|Decimal(n)| - 1] == Decimal(n / 10);
    } else {
      assert Decimal(n)[..0] == [];
    }
  }

  // The digits a text starts with, and the text after them.
  function LeadingDigits(s: string): (digits: string)
    ensures AllDigits(digits)
  {
    if s != [] && IsDigit(s[0]) then [s[0]] + LeadingDigits(s[1..]) else []
  }

  function AfterDigits(s: string): (rest: string)
    ensures |rest| <= |s|
  {
    if s != [] && IsDigit(s[0]) then AfterDigits(s[1..]) else s
  }

  lemma {:induction false} DigitsStop(digits: string, tail: string)
    requires AllDigits(digits) && (tail != [] ==> !IsDigit(tail[0]))
    ensures LeadingDigits(digits + tail) == digits && AfterDigits(digits + tail) == tail
  {
    if digits == [] {
      assert digits + tail == tail;
    } else {
      assert (digits + tail)[1..] == digits[1..] + tail;
      DigitsStop(digits[1..], tail);
      assert [digits[0]] + digits[1..] == digits;
    }
  }

  // n * 10^e
  function Scale(n: real, e: int): real
    decreases if e < 0 then -e else e, n
  {
    if e == 0 then n else if e > 0 then Scale(n * 10.0, e - 1) else Scale(n / 10.0, e + 1)
  }
}
