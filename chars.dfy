/**
  Character classes of <cctype> in the "C" locale, and the decimal value of a
  string of digits (what `std::atoi` and the hand-written accumulation loops
  compute on such a string).
 */
module Chars {

  /** `std::isdigit` in the "C" locale: the ten decimal digits, each a single byte. */
  predicate IsDigit(c: char)
    ensures IsDigit(c) ==> Utf8Length(c) == 1
  {
    '0' <= c <= '9'
  }

  /** The digits are exactly the ten characters '0' to '9'. */
  lemma DigitCharacters(c: char)
    ensures IsDigit(c) <==> c in "0123456789"
  {
  }

  /** `std::isspace` in the "C" locale: space, \t, \n, \v, \f and \r. */
  predicate IsSpace(c: char)
    ensures IsSpace(c) ==> Utf8Length(c) == 1 && !IsDigit(c)
  {
    c == ' ' || c == '\t' || c == '\n' || c == '\U{000B}' || c == '\U{000C}' || c == '\r'
  }

  /**
    The number of bytes of `c` in UTF-8, the encoding a C++ `std::string`
    holds the text in: one byte exactly for ASCII.
   */
  function Utf8Length(c: char): (n: nat)
    ensures 1 <= n <= 4
    ensures n == 1 <==> c as int < 0x80
  {
    if c as int < 0x80 then 1
    else if c as int < 0x800 then 2
    else if c as int < 0x1_0000 then 3
    else 4
  }

  /** `s.size()`: the number of bytes of `s` in UTF-8. */
  function ByteLength(s: string): (n: nat)
    ensures n >= |s|
    ensures n == 1 <==> |s| == 1 && s[0] as int < 0x80
  {
    if |s| == 0 then 0 else Utf8Length(s[0]) + ByteLength(s[1..])
  }

  predicate AllDigits(s: string) {
    forall i :: 0 <= i < |s| ==> IsDigit(s[i])
  }

  /** The value of one digit character, `c - '0'`. */
  function DigitValue(c: char): (d: int)
    requires IsDigit(c)
    ensures 0 <= d <= 9
    ensures (d == 0) == (c == '0')
  {
    c as int - '0' as int
  }

  /** The digit character of a value in 0..9, `'0' + d`. */
  function DigitChar(d: int): (c: char)
    requires 0 <= d <= 9
    ensures IsDigit(c) && DigitValue(c) == d
  {
    ('0' as int + d) as char
  }

  function Pow10(w: nat): (p: nat)
    ensures p >= 1
  {
    if w == 0 then 1 else 10 * Pow10(w - 1)
  }

  /**
    The decimal value of a string of digits, most significant digit first:
    what `std::atoi` returns on such a string when it fits, and what the
    accumulation `val = val * 10 + digit` computes. A string of `w` digits
    denotes a number below `10^w`.
   */
  function DecimalValue(s: string): (n: int)
    requires AllDigits(s)
    ensures 0 <= n < Pow10(|s|)
  {
    if |s| == 0 then 0
    else
      var m := DecimalValue(s[..|s| - 1]);
      assert m * 10 <= (Pow10(|s| - 1) - 1) * 10;
      m * 10 + DigitValue(s[|s| - 1])
  }

  /** Appending a digit multiplies the value by ten and adds the digit. */
  lemma DecimalValueSnoc(s: string, j: nat)
    requires AllDigits(s) && j < |s|
    ensures AllDigits(s[..j]) && AllDigits(s[..j + 1])
    ensures DecimalValue(s[..j + 1]) == DecimalValue(s[..j]) * 10 + DigitValue(s[j])
  {
    assert s[..j + 1][..j] == s[..j];
  }

  /** The value of a prefix never exceeds the value of the whole string. */
  lemma {:induction false} PrefixValueAtMost(s: string, j: nat)
    requires AllDigits(s) && j <= |s|
    ensures AllDigits(s[..j])
    ensures DecimalValue(s[..j]) <= DecimalValue(s)
    decreases |s| - j
  {
    if j < |s| {
      DecimalValueSnoc(s, j);
      PrefixValueAtMost(s, j + 1);
      assert s[..|s|] == s;
    } else {
      assert s[..j] == s;
    }
  }

  /** A non-empty digit string without a leading '0' denotes a positive number. */
  lemma {:induction false} LeadingNonZeroIsPositive(s: string)
    requires AllDigits(s) && |s| > 0 && s[0] != '0'
    ensures DecimalValue(s) >= 1
    decreases |s|
  {
    if |s| > 1 {
      var t := s[..|s| - 1];
      assert t[0] == s[0];
      LeadingNonZeroIsPositive(t);
    }
  }
}
