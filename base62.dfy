/** The base62 alphabet 0-9A-Za-z (fracdex.go:10).  Its digits are listed in
    ascending character order, so comparing two digit characters is the same as
    comparing their positions in the alphabet: that is what lets plain string
    comparison order the keys. */
module Base62 {

  /** The number of digits in the alphabet, len(base62Digits). */
  const Radix: nat := 62

  /** True for the characters of the alphabet. */
  predicate IsDigit(c: char) {
    '0' <= c <= '9' || 'A' <= c <= 'Z' || 'a' <= c <= 'z'
  }

  /** Every character of `s` is a base62 digit. */
  predicate AllDigits(s: string) {
    forall i :: 0 <= i < |s| ==> IsDigit(s[i])
  }

  /** The digit at position `i` of the alphabet, base62Digits[i]. */
  function Digit(i: nat): (c: char)
    requires i < Radix
    ensures IsDigit(c)
  {
    if i < 10 then ('0' as int + i) as char
    else if i < 36 then ('A' as int + (i - 10)) as char
    else ('a' as int + (i - 36)) as char
  }

  /** The alphabet as a string, base62Digits. */
  const Base62Digits: string := seq(Radix, i requires 0 <= i < Radix => Digit(i))

  /** The position of a digit in the alphabet, strings.Index(base62Digits, c). */
  function IndexOf(c: char): (i: nat)
    requires IsDigit(c)
    ensures i < Radix && Digit(i) == c
  {
    if c <= '9' then c as int - '0' as int
    else if c <= 'Z' then c as int - 'A' as int + 10
    else c as int - 'a' as int + 36
  }

  /** A digit string that does not end in the redundant digit '0' (the
      invariant of the fractional part of a key). */
  predicate NoTrailingZero(s: string) {
    s == [] || s[|s| - 1] != '0'
  }

  /** `n` copies of the character `c`. */
  function Repeat(c: char, n: nat): (s: string)
    ensures |s| == n && forall i :: 0 <= i < n ==> s[i] == c
  {
    seq(n, _ => c)
  }

  /** The alphabet spelled out: it is the source's constant. */
  lemma AlphabetSpelledOut()
    ensures |Base62Digits| == 62
    ensures Base62Digits[..10] == "0123456789"
    ensures Base62Digits[10..23] == "ABCDEFGHIJKLM"
    ensures Base62Digits[23..36] == "NOPQRSTUVWXYZ"
    ensures Base62Digits[36..49] == "abcdefghijklm"
    ensures Base62Digits[49..] == "nopqrstuvwxyz"
  {
  }

  /** Character order on digits is alphabet order: comparing characters is
      comparing digit values. */
  lemma DigitOrder(i: nat, j: nat)
    requires i < Radix && j < Radix
    ensures i < j <==> Digit(i) < Digit(j)
    ensures i == j <==> Digit(i) == Digit(j)
  {
  }

  /** The same fact seen from the characters' side. */
  lemma IndexOrder(c: char, d: char)
    requires IsDigit(c) && IsDigit(d)
    ensures c < d <==> IndexOf(c) < IndexOf(d)
  {
    DigitOrder(IndexOf(c), IndexOf(d));
  }

  /** Digit and IndexOf are inverse. */
  lemma DigitRoundTrip(i: nat)
    requires i < Radix
    ensures IndexOf(Digit(i)) == i
  {
  }
}
