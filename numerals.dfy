/** Digits and numerals in a radix: how Rust's `char::to_digit` reads a digit
    and how `format!` writes an unsigned integer. */
module Numerals {

  /** A radix that `char::to_digit` and `from_str_radix` accept. */
  type Radix = b: nat | 2 <= b <= 36 witness 10

  /** The digit value of `c`: '0'..'9' are 0..9, 'a'..'z' and 'A'..'Z' are
      10..35, and every other character gets 36, which no radix admits. */
  function CharValue(c: char): (v: nat)
    ensures v <= 36
  {
    if '0' <= c <= '9' then c as int - '0' as int
    else if 'a' <= c <= 'z' then c as int - 'a' as int + 10
    else if 'A' <= c <= 'Z' then c as int - 'A' as int + 10
    else 36
  }

  /** `c` is a digit of `base`, as `c.to_digit(base).is_some()`. */
  predicate IsDigit(c: char, base: Radix): (b: bool)
    ensures b ==> '0' <= c <= '9' || 'a' <= c <= 'z' || 'A' <= c <= 'Z'
    ensures '0' <= c <= '9' && (c as int - '0' as int) < base ==> b
    ensures base == 16 ==> (b <==> '0' <= c <= '9' || 'a' <= c <= 'f' || 'A' <= c <= 'F')
  {
    CharValue(c) < base
  }

  predicate AllDigits(s: string, base: Radix) {
    forall i :: 0 <= i < |s| ==> IsDigit(s[i], base)
  }

  /** The value of a digit string, most significant digit first. */
  function DigitsValue(s: string, base: Radix): nat
    requires AllDigits(s, base)
  {
    if s == [] then 0
    else DigitsValue(s[..|s| - 1], base) * base + CharValue(s[|s| - 1])
  }

  /** The lower-case character for digit `d`. */
  function DigitChar(d: nat): (c: char)
    requires d < 36
    ensures CharValue(c) == d
    ensures '0' <= c <= '9' || 'a' <= c <= 'z'
  {
    if d < 10 then ('0' as int + d) as char else ('a' as int + d - 10) as char
  }

  /** `n` written in `base` with lower-case digits and no leading zero, as
      `format!("{}", n)` does for base 10 and `{:x}` for base 16. */
  function Numeral(n: nat, base: Radix): (s: string)
    ensures |s| >= 1 && AllDigits(s, base)
    ensures DigitsValue(s, base) == n
    ensures s[0] == '0' ==> n == 0
  {
    if n < base then [DigitChar(n)]
    else
      var q, r := n / base, n % base;
      DivideStep(n, base);
      var init := Numeral(q, base);
      var s := init + [DigitChar(r)];
      assert s[..|s| - 1] == init;
      assert DigitsValue(s, base) == q * base + r;
      s
  }

  /** Euclidean division by the base of a number that needs two digits or more. */
  lemma DivideStep(n: nat, base: Radix)
    requires n >= base
    ensures n == (n / base) * base + n % base && n % base < base
    ensures 1 <= n / base < n
  {
  }

  /** A leading '0' does not change the value of a digit string. */
  lemma {:induction false} LeadingZero(s: string, base: Radix)
    requires AllDigits(s, base)
    ensures AllDigits(['0'] + s, base)
    ensures DigitsValue(['0'] + s, base) == DigitsValue(s, base)
  {
    var z := ['0'] + s;
    if s != [] {
      var init := s[..|s| - 1];
      assert z[..|z| - 1] == ['0'] + init;
      LeadingZero(init, base);
    } else {
      assert z[..|z| - 1] == [];
    }
  }
}
